/** The linked list of fixed-size blocks behind sylar's ByteArray, proved to be one flat
    growable byte buffer with a cursor. */
module ByteArrays {
  import opened Blocks

  /** One storage block; `data.Length` is the block's size. */
  class Node {
    const data: array<byte>
    var next: Node?

    constructor (size: nat)
      ensures next == null && data.Length == size && fresh(data)
    {
      data := new byte[size];
      next := null;
    }
  }

  method MemCopy(dst: array<byte>, off: nat, src: seq<byte>)
    requires off + |src| <= dst.Length
    modifies dst
    ensures forall i :: 0 <= i < dst.Length ==>
              dst[i] == if off <= i < off + |src| then src[i - off] else old(dst[i])
  {
    forall i | 0 <= i < |src| { dst[off + i] := src[i]; }
  }

  /** A fragment of one block, as handed to readv/writev. */
  datatype Iovec = Iovec(base: array<byte>, off: nat, len: nat)

  ghost predicate Fits(v: Iovec) {
    0 < v.len && v.off + v.len <= v.base.Length
  }

  ghost predicate AllFit(iovs: seq<Iovec>) {
    forall i :: 0 <= i < |iovs| ==> Fits(iovs[i])
  }

  /** The bytes that a gathering write would send from the fragments. */
  ghost function Gather(iovs: seq<Iovec>): (s: seq<byte>)
    requires AllFit(iovs)
    reads set v | v in iovs :: v.base
  {
    if iovs == [] then [] else
    var v := iovs[|iovs| - 1];
    assert Fits(v);
    Gather(iovs[..|iovs| - 1]) + v.base[v.off..v.off + v.len]
  }

  /** Fragments that gather to `flat[start..p]` still gather to a slice with one more. */
  lemma GatherNothing(flat: seq<byte>, at: nat)
    requires at <= |flat|
    ensures AllFit([]) && Gather([]) == flat[at..at]
  {
  }

  lemma {:induction false} GatherSnoc(iovs: seq<Iovec>, v: Iovec, flat: seq<byte>, start: nat, p: nat)
    requires start <= p && p + v.len <= |flat| && Fits(v) && v.base[v.off..v.off + v.len] == flat[p..p + v.len]
    requires AllFit(iovs)
    requires Gather(iovs) == flat[start..p]
    ensures AllFit(iovs + [v]) && Gather(iovs + [v]) == flat[start..p + v.len]
  {
    assert (iovs + [v])[..|iovs|] == iovs;
    SliceJoin(flat, start, p, p + v.len);
  }

  /** The fragments of the blocks `ns`, each of `b` bytes, that cover `len` bytes from offset
      `npos` of block `k` on. */
  ghost function FragmentsFrom(ns: seq<Node>, b: nat, k: nat, npos: nat, len: nat): seq<Iovec>
    requires npos < b
    decreases |ns| - k
  {
    if len == 0 || k >= |ns| then [] else
    var m := if len < b - npos then len else b - npos;
    [Iovec(ns[k].data, npos, m)] + FragmentsFrom(ns, b, k + 1, 0, len - m)
  }

  /** What a read can do: deliver bytes, throw std::out_of_range, or dereference the null
      cursor that marks a position at the very end of the capacity. */
  datatype ReadResult = Bytes(bytes: seq<byte>) | OutOfRange | NullCursor

  /** The capacity after making room for `n` bytes at `pos`. */
  function GrownCapacity(cap: nat, pos: nat, n: nat, b: nat): (r: nat)
    requires 0 < b && pos <= cap
    ensures r >= cap && r >= pos + n
    ensures n <= cap - pos ==> r == cap
    ensures n > cap - pos ==> r - b < pos + n
  {
    if n <= cap - pos then cap else cap + Off(CeilDiv(n - (cap - pos), b), b)
  }

  class ByteArray {
    const baseSize: nat
    var position: nat
    var capacity: nat
    var size: nat
    var littleEndian: bool
    var root: Node
    var cur: Node?
    ghost var nodes: seq<Node>
    ghost var flat: seq<byte>  // all the bytes of all the blocks, in list order
    ghost var curIdx: nat      // which block `cur` is; past the last when `cur` is null
    ghost var Repr: set<object>

    /** The list structure: `nodes` are the blocks from `root` along `next`. */
    ghost predicate Chain()
      reads this`root, this`nodes, this`flat, this`capacity, this`Repr, Repr
    {
      && 0 < baseSize && this !in Repr
      && |nodes| > 0 && root == nodes[0]
      && |flat| == capacity == Off(|nodes|, baseSize)
      && (forall i :: 0 <= i < |nodes| ==> nodes[i] in Repr)
      && (forall i {:trigger nodes[i].next} :: 0 <= i < |nodes| ==>
            nodes[i].next == if i + 1 < |nodes| then nodes[i + 1] else null)
      && (forall i {:trigger nodes[i].data} :: 0 <= i < |nodes| ==>
            && nodes[i].data in Repr && nodes[i].data.Length == baseSize
            && Off(i, baseSize) + baseSize <= |flat|)
      && (forall i, j {:trigger nodes[i].data[j]} :: 0 <= i < |nodes| && 0 <= j < baseSize ==>
            nodes[i].data[j] == flat[Off(i, baseSize) + j])
      && (forall i, j :: 0 <= i < j < |nodes| ==> nodes[i].data != nodes[j].data)
    }

    /** The cursor is the block holding position `p`, and null exactly at capacity. */
    ghost predicate CursorAt(p: nat)
      reads this
    {
      && curIdx <= |nodes| && Off(curIdx, baseSize) <= p
      && (curIdx < |nodes| ==> cur == nodes[curIdx] && p < Off(curIdx, baseSize) + baseSize)
      && (curIdx == |nodes| ==> cur == null && p == capacity)
    }

    ghost predicate Valid()
      reads this, Repr
    {
      && Chain() && CursorAt(position) && position <= size <= capacity
      && |flat| == capacity && 0 < baseSize && this !in Repr
    }

    /** The cursor block is `position / baseSize`, and there is none exactly at capacity. */
    lemma CursorBlock()
      requires Valid()
      ensures position % baseSize == position - Off(position / baseSize, baseSize)
      ensures position < capacity ==> position / baseSize < |nodes| && cur == nodes[position / baseSize]
      ensures cur == null <==> position == capacity
      ensures cur != null ==> curIdx == position / baseSize
    {
      if cur != null {
        LocateInv(curIdx, position - Off(curIdx, baseSize), baseSize);
        OffMono(curIdx + 1, |nodes|, baseSize);
      } else {
        LocateInv(|nodes|, 0, baseSize);
      }
    }

    lemma BlockLength(k: nat)
      requires Chain() && k < |nodes|
      ensures nodes[k].data.Length == baseSize && |flat| == capacity && Off(k, baseSize) + baseSize <= capacity
    {
      assert nodes[k].data.Length == baseSize;
    }

    /** A slice of block `k` is a slice of the flat buffer. */
    lemma BlockSlice(k: nat, off: nat, n: nat)
      requires Chain() && k < |nodes| && off + n <= baseSize
      ensures nodes[k].data.Length == baseSize && Off(k, baseSize) + off + n <= |flat| == capacity
      ensures nodes[k].data[off..off + n] == flat[Off(k, baseSize) + off..Off(k, baseSize) + off + n]
    {
      assert nodes[k].data.Length == baseSize;
    }

    /** Below capacity a block that has been used up has a successor. */
    lemma NextBlock(k: nat)
      requires Chain() && k < |nodes| && Off(k, baseSize) + baseSize < capacity
      ensures k + 1 < |nodes| && nodes[k].next == nodes[k + 1]
      ensures nodes[k + 1].data.Length == baseSize && Off(k + 1, baseSize) == Off(k, baseSize) + baseSize
    {
      assert nodes[k + 1].data.Length == baseSize;
    }

    constructor (baseSize: nat)
      requires 0 < baseSize
      ensures Valid() && fresh(Repr)
      ensures this.baseSize == baseSize && capacity == baseSize
      ensures position == 0 && size == 0 && !littleEndian
    {
      var n := new Node(baseSize);
      this.baseSize := baseSize;
      position, capacity, size := 0, baseSize, 0;
      littleEndian := false;
      root, cur := n, n;
      nodes := [n];
      flat := n.data[..];
      curIdx := 0;
      Repr := {n, n.data};
    }

    method SetIsLittleEndian(val: bool)
      requires Valid()
      modifies this`littleEndian
      ensures Valid() && littleEndian == val
    {
      littleEndian := val;
    }

    /** memcpy into block `k`: the only way the model changes stored bytes. */
    method CopyToBlock(dst: array<byte>, ghost k: nat, off: nat, src: seq<byte>)
      requires Chain() && k < |nodes| && nodes[k].data == dst && off + |src| <= baseSize
      modifies dst, this`flat
      ensures Chain()
      ensures Off(k, baseSize) + off + |src| <= capacity
      ensures flat == Splice(old(flat), Off(k, baseSize) + off, src)
    {
      MemCopy(dst, off, src);
      flat := Splice(flat, Off(k, baseSize) + off, src);
      forall i, j | 0 <= i < |nodes| && 0 <= j < baseSize
        ensures nodes[i].data[j] == flat[Off(i, baseSize) + j]
      {
        if i < k { OffMono(i, k, baseSize); } else { OffMono(k, i, baseSize); }
        assert i != k ==> nodes[i].data[j] == old(nodes[i].data[j]);
      }
    }

    /** Grow by whole blocks until `n` bytes fit after the position. */
    method AddCapacity(n: nat)
      requires Valid()
      modifies this, Repr
      ensures Valid() && fresh(Repr - old(Repr))
      ensures capacity == GrownCapacity(old(capacity), old(position), n, baseSize)
      ensures unchanged(this`position) && unchanged(this`size) && unchanged(this`littleEndian)
      ensures flat[..old(capacity)] == old(flat)
    {
      if n == 0 { return; }
      var oldCap := capacity - position;
      if oldCap >= n { return; }
      Grow(CeilDiv(n - oldCap, baseSize));
    }

    /** Add `count` blocks; a null cursor moves onto the first of them. */
    method Grow(count: nat)
      requires Valid() && count > 0
      modifies this, Repr
      ensures Valid() && fresh(Repr - old(Repr))
      ensures capacity == old(capacity) + Off(count, baseSize)
      ensures unchanged(this`position) && unchanged(this`size) && unchanged(this`littleEndian)
      ensures flat[..old(capacity)] == old(flat)
    {
      if curIdx < |nodes| { OffMono(curIdx + 1, |nodes|, baseSize); }
      OffAdd(|nodes|, count, baseSize);
      var atEnd := capacity - position == 0;
      var last := FindLast();
      var first := AppendBlocks(last, count);
      if atEnd {
        cur := first;
      }
      assert Chain() && CursorAt(position);
    }

    /** Link `count` fresh blocks after the last one. */
    method AppendBlocks(last: Node, count: nat) returns (first: Node?)
      requires Chain() && last == nodes[|nodes| - 1]
      modifies last`next, this`capacity, this`nodes, this`flat, this`Repr
      ensures Chain() && fresh(Repr - old(Repr))
      ensures |nodes| == old(|nodes|) + count && nodes[..old(|nodes|)] == old(nodes)
      ensures count > 0 ==> first == nodes[old(|nodes|)]
      ensures old(capacity) <= capacity && flat[..old(capacity)] == old(flat)
    {
      var tmp := last;
      first := null;
      for i := 0 to count
        invariant Chain() && fresh(Repr - old(Repr))
        invariant |nodes| == old(|nodes|) + i && nodes[..old(|nodes|)] == old(nodes)
        invariant tmp == nodes[|nodes| - 1]
        invariant tmp == last || fresh(tmp)
        invariant if i > 0 then first == nodes[old(|nodes|)] else first == null
        invariant old(capacity) <= capacity && flat[..old(capacity)] == old(flat)
      {
        AppendBlock(tmp);
        tmp := tmp.next;
        if first == null { first := tmp; }
      }
    }

    /** Walk the list to its last block. */
    method FindLast() returns (last: Node)
      requires Chain()
      ensures last == nodes[|nodes| - 1]
    {
      last := root;
      ghost var i := 0;
      while last.next != null
        invariant 0 <= i < |nodes| && last == nodes[i]
        decreases |nodes| - i
      {
        last := last.next;
        i := i + 1;
      }
    }

    /** Link one fresh block after the last one. */
    method AppendBlock(last: Node)
      requires Chain() && last == nodes[|nodes| - 1]
      modifies last`next, this`capacity, this`nodes, this`flat, this`Repr
      ensures Chain() && capacity == old(capacity) + baseSize
      ensures |nodes| == old(|nodes|) + 1 && nodes[..old(|nodes|)] == old(nodes)
      ensures fresh(Repr - old(Repr)) && old(Repr) <= Repr
      ensures last.next == nodes[|nodes| - 1] && fresh(nodes[|nodes| - 1])
      ensures flat[..old(capacity)] == old(flat)
    {
      hide Off;
      OffNext(|nodes|, baseSize);
      var n := new Node(baseSize);
      last.next := n;
      capacity := capacity + baseSize;
      ghost var k := |nodes|;
      nodes := nodes + [n];
      flat := flat + n.data[..];
      Repr := Repr + {n, n.data};
      forall i | 0 <= i < |nodes|
        ensures nodes[i].data in Repr && nodes[i].data.Length == baseSize && Off(i, baseSize) + baseSize <= |flat|
      {
        if i < k {
          OffMono(i, k, baseSize);
          assert nodes[i] == old(nodes[i]) && nodes[i].data == old(nodes[i].data);
        }
      }
      forall i, j | 0 <= i < |nodes| && 0 <= j < baseSize ensures nodes[i].data[j] == flat[Off(i, baseSize) + j] {
        if i < k {
          assert nodes[i] == old(nodes[i]) && nodes[i].data[j] == old(nodes[i].data[j]);
        }
      }
    }

    method Clear()
      requires Valid()
      modifies this, root`next
      ensures Valid() && Repr == old(Repr)
      ensures position == 0 && size == 0 && capacity == baseSize && flat == old(flat)[..baseSize]
      ensures unchanged(this`littleEndian) && unchanged(this`root)
    {
      OffMono(1, |nodes|, baseSize);
      position, size, capacity := 0, 0, baseSize;
      cur, curIdx := root, 0;
      root.next := null;
      nodes, flat := nodes[..1], flat[..baseSize];
    }

    /** Store `buf` at the position, growing the list as needed. */
    method Write(buf: seq<byte>)
      requires Valid()
      modifies this, Repr
      ensures Valid() && fresh(Repr - old(Repr))
      ensures position == old(position) + |buf|
      ensures size == if position > old(size) then position else old(size)
      ensures capacity == GrownCapacity(old(capacity), old(position), |buf|, baseSize)
      ensures Stored(old(flat), flat, old(position), buf)
      ensures unchanged(this`littleEndian)
    {
      hide Chain, Splice, Stored;
      StoredNothing(flat, position);
      if |buf| == 0 { return; }
      AddCapacity(|buf|);
      ghost var flat0 := flat;
      WriteBlocks(buf);
      SpliceStored(old(flat), flat0, old(position), buf);
      if position > size {
        size := position;
      }
    }

    /** The copying loop of `write`, once there is room. */
    method WriteBlocks(buf: seq<byte>)
      requires Chain() && CursorAt(position) && |buf| > 0 && position + |buf| <= capacity
      modifies this, Repr
      ensures Chain() && CursorAt(position)
      ensures position == old(position) + |buf|
      ensures |flat| == capacity && flat == Splice(old(flat), old(position), buf)
      ensures unchanged(this`size) && unchanged(this`capacity) && unchanged(this`Repr) && unchanged(this`littleEndian)
    {
      hide Splice, Off, CursorAt;
      CursorOffset();
      var npos: nat := position % baseSize;
      var ncap: nat := cur.data.Length - npos;
      var bpos: nat, left: nat := 0, |buf|;
      ghost var flat0, pos0 := flat, position;
      StoredNothing(flat, position);
      assert buf[..0] == [];
      while left > 0
        invariant Chain() && CursorAt(position)
        invariant bpos + left == |buf| && position == pos0 + bpos && position + left <= capacity
        invariant left > 0 ==> InBlock(npos) && ncap == baseSize - npos
        invariant flat == Splice(flat0, pos0, buf[..bpos])
        invariant unchanged(this`size) && unchanged(this`capacity)
        invariant unchanged(this`Repr) && unchanged(this`littleEndian)
      {
        var n := if ncap >= left then left else ncap;
        SpliceExtend(flat0, pos0, buf, bpos, n);
        WriteChunk(npos, buf[bpos..bpos + n]);
        assert flat == Splice(flat0, pos0, buf[..bpos + n]);
        bpos := bpos + n;
        left := left - n;
        if left > 0 {
          ncap := cur.data.Length;
          npos := 0;
        }
      }
      assert buf[..bpos] == buf;
    }

    /** Copy `src` into the cursor's block and step the cursor on when the block is full. */
    method WriteChunk(npos: nat, src: seq<byte>)
      requires Chain() && InBlock(npos) && npos + |src| <= baseSize
      modifies cur.data, this`flat, this`position, this`cur, this`curIdx
      ensures Chain() && CursorAt(position)
      ensures old(position) + |src| <= capacity
      ensures position == old(position) + |src| && flat == Splice(old(flat), old(position), src)
      ensures npos + |src| == baseSize && position < capacity ==> InBlock(0)
    {
      CopyToBlock(cur.data, curIdx, npos, src);
      if cur.data.Length == npos + |src| {
        cur, curIdx := cur.next, curIdx + 1;
      }
      position := position + |src|;
    }

    /** The position is `npos` bytes into the cursor's block. */
    ghost predicate InBlock(npos: nat)
      reads this
    {
      curIdx < |nodes| && cur == nodes[curIdx] && npos < baseSize && position == Off(curIdx, baseSize) + npos
    }

    lemma CursorOffset()
      requires Chain() && CursorAt(position)
      ensures (cur == null) == (position == capacity)
      ensures cur != null ==> InBlock(position % baseSize)
    {
      if curIdx < |nodes| {
        LocateInv(curIdx, position - Off(curIdx, baseSize), baseSize);
        OffMono(curIdx + 1, |nodes|, baseSize);
      }
    }

    /** Take the next `n` bytes, moving the position past them. */
    method Read(n: nat) returns (r: ReadResult)
      requires Valid()
      modifies this`position, this`cur, this`curIdx
      ensures Valid()
      ensures r.OutOfRange? <==> n > old(size - position)
      ensures r.NullCursor? <==> n == 0 && old(position) == capacity
      ensures r.Bytes? ==> position == old(position) + n && r.bytes == flat[old(position)..position]
      ensures !r.Bytes? ==> position == old(position)
    {
      if n > size - position { return OutOfRange; }
      CursorOffset();
      if cur == null { return NullCursor; }
      var out := ReadBlocks(n);
      return Bytes(out);
    }

    /** The copying loop of `read`, once the length has been checked. */
    method ReadBlocks(n: nat) returns (out: seq<byte>)
      requires Chain() && InBlock(position % baseSize) && position + n <= capacity
      modifies this`position, this`cur, this`curIdx
      ensures CursorAt(position)
      ensures position == old(position) + n && out == flat[old(position)..position]
    {
      var npos: nat := position % baseSize;
      var ncap: nat := cur.data.Length - npos;
      var left: nat := n;
      out := [];
      ghost var start := position;
      while left > 0
        invariant CursorAt(position) && start <= position && position + left == start + n
        invariant left > 0 ==> InBlock(npos) && ncap == baseSize - npos
        invariant out == flat[start..position]
      {
        var m := if ncap >= left then left else ncap;
        SliceJoin(flat, start, position, position + m);
        var chunk := ReadChunk(npos, m);
        out := out + chunk;
        left := left - m;
        if left > 0 {
          ncap := cur.data.Length;
          npos := 0;
        }
      }
    }

    /** Take `n` bytes of the cursor's block and step the cursor on when the block is used up. */
    method ReadChunk(npos: nat, n: nat) returns (bytes: seq<byte>)
      requires Chain() && InBlock(npos) && npos + n <= baseSize
      modifies this`position, this`cur, this`curIdx
      ensures CursorAt(position)
      ensures position == old(position) + n <= capacity && bytes == flat[old(position)..position]
      ensures npos + n == baseSize && position < capacity ==> InBlock(0)
    {
      BlockSlice(curIdx, npos, n);
      bytes := cur.data[npos..npos + n];
      if cur.data.Length == npos + n {
        cur, curIdx := cur.next, curIdx + 1;
      }
      position := position + n;
    }

    /** Move the position anywhere within the capacity; false stands for std::out_of_range. */
    method SetPosition(v: nat) returns (ok: bool)
      requires Valid()
      modifies this`position, this`size, this`cur, this`curIdx
      ensures Valid()
      ensures ok <==> v <= capacity
      ensures ok ==> position == v && size == if v > old(size) then v else old(size)
      ensures !ok ==> unchanged(this`position) && unchanged(this`size)
    {
      if v > capacity { return false; }
      position := v;
      if position > size {
        size := position;
      }
      Seek(v);
      return true;
    }

    /** Walk from the root to the block holding position `v`. */
    method Seek(v: nat)
      requires Chain() && v <= capacity
      modifies this`cur, this`curIdx
      ensures CursorAt(v)
    {
      var node, rest: nat := root, v;
      ghost var k: nat := 0;
      while rest > node.data.Length
        invariant k < |nodes| && node == nodes[k] && v == Off(k, baseSize) + rest
        decreases rest
      {
        rest := rest - node.data.Length;
        NextBlock(k);
        node, k := node.next, k + 1;
      }
      cur, curIdx := node, k;
      if rest == node.data.Length {
        cur, curIdx := node.next, k + 1;
      }
    }

    /** The const read at `pos`. It starts in the cursor's block whatever `pos` is, so what it
        returns are the bytes at `start`, and `start` is `pos` exactly when the two share a block. */
    method ReadAt(n: nat, pos: nat) returns (r: ReadResult, start: nat)
      requires Valid()
      ensures r.OutOfRange? <==> pos <= size && n > size - pos
      ensures start == Off(position / baseSize, baseSize) + pos % baseSize
      ensures start == pos <==> pos / baseSize == position / baseSize
      ensures r.NullCursor? <==> !r.OutOfRange? && (cur == null || start + n > capacity)
      ensures r.Bytes? ==> start + n <= capacity && r.bytes == flat[start..start + n]
    {
      hide Chain, Off;
      start := (position / baseSize) * baseSize + pos % baseSize;
      StartInBlock(pos);
      if pos <= size && n > size - pos { return OutOfRange, start; }
      if cur == null { return NullCursor, start; }
      // Walking past the last block dereferences its null `next`.
      if start + n > capacity { return NullCursor, start; }
      var out := PeekBlocks(cur, curIdx, pos % baseSize, n);
      r := Bytes(out);
    }

    /** The copying loop of the const read. */
    method PeekBlocks(node: Node, ghost k0: nat, off: nat, n: nat) returns (out: seq<byte>)
      requires Chain() && k0 < |nodes| && node == nodes[k0] && off < baseSize
      requires Off(k0, baseSize) + off + n <= capacity
      ensures out == flat[Off(k0, baseSize) + off..Off(k0, baseSize) + off + n]
    {
      hide Chain, Off;
      BlockLength(k0);
      var at, npos: nat, left: nat := node, off, n;
      ghost var k: nat, start: nat := k0, Off(k0, baseSize) + off;
      ghost var p: nat := start;
      var ncap: nat := at.data.Length - npos;
      out := [];
      while left > 0
        invariant start <= p && p + left == start + n && out == flat[start..p]
        invariant left > 0 ==>
            k < |nodes| && at == nodes[k] && npos < baseSize && ncap == baseSize - npos && p == Off(k, baseSize) + npos
      {
        var m := if ncap >= left then left else ncap;
        BlockSlice(k, npos, m);
        SliceJoin(flat, start, p, p + m);
        out := out + at.data[npos..npos + m];
        p := p + m;
        left := left - m;
        if left > 0 {
          NextBlock(k);
          at, k := at.next, k + 1;
          ncap := at.data.Length;
          npos := 0;
        }
      }
    }

    /** Where the const read starts. */
    lemma StartInBlock(pos: nat)
      requires Valid()
      ensures 0 <= pos % baseSize < baseSize
      ensures (position / baseSize) * baseSize == Off(position / baseSize, baseSize)
      ensures Off(position / baseSize, baseSize) + pos % baseSize == pos <==> pos / baseSize == position / baseSize
      ensures cur != null ==> curIdx == position / baseSize
    {
      CursorBlock();
      OffIsProduct(position / baseSize, baseSize);
      OffIsProduct(pos / baseSize, baseSize);
      assert pos == (pos / baseSize) * baseSize + pos % baseSize;
      LocateInv(position / baseSize, pos % baseSize, baseSize);
    }

    /** The readable bytes, as a string; nothing moves. */
    method ToString() returns (s: seq<byte>)
      requires Valid()
      ensures s == flat[position..size]
    {
      if size - position == 0 { return []; }
      CursorBlock();
      var r, start := ReadAt(size - position, position);
      s := r.bytes;
    }

    /** The fragment loop of the gather view. */
    method ReadFragments(node: Node, ghost k0: nat, off: nat, len: nat) returns (iovs: seq<Iovec>)
      requires Chain() && k0 < |nodes| && node == nodes[k0] && off < baseSize
      requires Off(k0, baseSize) + off + len <= capacity
      ensures AllFit(iovs)
      ensures Gather(iovs) == flat[Off(k0, baseSize) + off..Off(k0, baseSize) + off + len]
    {
      hide Chain, Off, Gather, AllFit;
      BlockLength(k0);
      var at, npos: nat, left: nat := node, off, len;
      ghost var k: nat, start: nat := k0, Off(k0, baseSize) + off;
      ghost var p: nat := start;
      var ncap: nat := at.data.Length - npos;
      iovs := [];
      GatherNothing(flat, start);
      while left > 0
        invariant start <= p && p + left == start + len
        invariant left > 0 ==>
                    && k < |nodes| && at == nodes[k] && npos < baseSize && ncap == baseSize - npos
                    && p == Off(k, baseSize) + npos
        invariant AllFit(iovs)
        invariant Gather(iovs) == flat[start..p]
      {
        var m := if ncap >= left then left else ncap;
        AddFragment(iovs, k, npos, m, start);
        iovs := iovs + [Iovec(at.data, npos, m)];
        p := p + m;
        left := left - m;
        if left > 0 {
          NextBlock(k);
          at, k := at.next, k + 1;
          ncap := at.data.Length;
          npos := 0;
        }
      }
    }

    lemma {:induction false} AddFragment(iovs: seq<Iovec>, k: nat, npos: nat, m: nat, start: nat)
      requires Chain() && k < |nodes| && npos + m <= baseSize && 0 < m && start <= Off(k, baseSize) + npos <= capacity
      requires AllFit(iovs)
      requires Gather(iovs) == flat[start..Off(k, baseSize) + npos]
      ensures AllFit(iovs + [Iovec(nodes[k].data, npos, m)]) && Off(k, baseSize) + npos + m <= capacity
      ensures Gather(iovs + [Iovec(nodes[k].data, npos, m)]) == flat[start..Off(k, baseSize) + npos + m]
    {
      BlockSlice(k, npos, m);
      GatherSnoc(iovs, Iovec(nodes[k].data, npos, m), flat, start, Off(k, baseSize) + npos);
    }

    /** The fragment loop of the scatter view. */
    method WriteFragments(node: Node, ghost k0: nat, off: nat, len: nat) returns (iovs: seq<Iovec>)
      requires Chain() && k0 < |nodes| && node == nodes[k0] && off < baseSize
      requires Off(k0, baseSize) + off + len <= capacity
      ensures iovs == FragmentsFrom(nodes, baseSize, k0, off, len)
    {
      hide Chain, Off;
      BlockLength(k0);
      var at, npos: nat, left: nat := node, off, len;
      ghost var k: nat := k0;
      var ncap: nat := at.data.Length - npos;
      iovs := [];
      while left > 0
        invariant npos < baseSize
        invariant left > 0 ==> k < |nodes| && at == nodes[k] && ncap == baseSize - npos
        invariant left > 0 ==> Off(k, baseSize) + npos + left <= capacity
        invariant iovs + FragmentsFrom(nodes, baseSize, k, npos, left) == FragmentsFrom(nodes, baseSize, k0, off, len)
      {
        var m := if ncap >= left then left else ncap;
        iovs := iovs + [Iovec(at.data, npos, m)];
        left := left - m;
        if left > 0 {
          NextBlock(k);
          at := at.next;
          ncap := at.data.Length;
        }
        k := k + 1;
        npos := 0;
      }
    }

    /** The next readable bytes as fragments for writev, at most `len` of them. */
    method GetReadBuffers(len: nat) returns (iovs: seq<Iovec>, total: nat)
      requires Valid()
      ensures total == if len > size - position then size - position else len
      ensures AllFit(iovs)
      ensures Gather(iovs) == flat[position..position + total]
    {
      total := if len > size - position then size - position else len;
      if total == 0 { return [], 0; }
      CursorOffset();
      iovs := ReadFragments(cur, curIdx, position % baseSize, total);
    }

    /** Room for `len` more bytes as fragments for readv, growing the list as needed. */
    method GetWriteBuffers(len: nat) returns (iovs: seq<Iovec>)
      requires Valid()
      modifies this, Repr
      ensures Valid() && fresh(Repr - old(Repr))
      ensures capacity == GrownCapacity(old(capacity), old(position), len, baseSize)
      ensures flat[..old(capacity)] == old(flat)
      ensures unchanged(this`position) && unchanged(this`size) && unchanged(this`littleEndian)
      ensures len == 0 ==> iovs == []
      ensures len > 0 ==>
                && InBlock(position % baseSize)
                && iovs == FragmentsFrom(nodes, baseSize, curIdx, position % baseSize, len)
    {
      if len == 0 { return []; }
      AddCapacity(len);
      CursorOffset();
      iovs := WriteFragments(cur, curIdx, position % baseSize, len);
    }

    /** What readv does to the fragments: fill them in order with `data`. */
    method Scatter(iovs: seq<Iovec>, ghost k: nat, ghost npos: nat, ghost len: nat, data: seq<byte>)
      requires Chain() && npos < baseSize && Off(k, baseSize) + npos + len <= capacity
      requires iovs == FragmentsFrom(nodes, baseSize, k, npos, len) && |data| <= len
      modifies Repr, this`flat
      ensures Chain() && flat == Splice(old(flat), Off(k, baseSize) + npos, data)
      decreases |data|
    {
      hide Splice;
      StoredNothing(flat, Off(k, baseSize) + npos);
      if |data| == 0 { return; }
      if k >= |nodes| {
        OffMono(|nodes|, k, baseSize);
        assert false;
      }
      var iov := iovs[0];
      var n := if iov.len < |data| then iov.len else |data|;
      CopyToBlock(iov.base, k, iov.off, data[..n]);
      SpliceExtend(old(flat), Off(k, baseSize) + npos, data, n, |data| - n);
      assert data[..n + (|data| - n)] == data;
      if n < |data| {
        Scatter(iovs[1..], k + 1, 0, len - n, data[n..]);
      }
    }
  }
}
