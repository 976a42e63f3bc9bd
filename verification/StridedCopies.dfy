/** Strided copies: the compiler describes a copy by shape, strides and the size of a contiguous chunk, and the runtime
    copies chunk by chunk. */
module StridedCopies {

  // -------------------------------------------------------------------------
  // Byte by byte

  /** One dimension: its extent and the distance of neighbours in source and destination. */
  datatype Dim = Dim(extent: nat, from: int, to: int)

  /** A byte of the destination and the byte of the source it gets, relative to the two addresses. */
  datatype Move = Move(from: int, to: int)

  ghost function Chunk(size: nat, a: int, b: int): seq<Move> {
    seq(size, k => Move(a + k, b + k))
  }

  /** The bytes moved, in order, by a copy whose innermost pieces have `size` bytes. */
  ghost function Moves(dims: seq<Dim>, size: nat, a: int, b: int): seq<Move>
    decreases |dims|, 1, 0
  {
    if dims == [] then Chunk(size, a, b) else MovesUpTo(dims, size, a, b, dims[0].extent)
  }

  ghost function MovesUpTo(dims: seq<Dim>, size: nat, a: int, b: int, n: nat): seq<Move>
    requires dims != []
    decreases |dims|, 0, n
  {
    if n == 0 then []
    else MovesUpTo(dims, size, a, b, n - 1) + Moves(dims[1..], size, a + (n - 1) * dims[0].from, b + (n - 1) * dims[0].to)
  }

  /** The copy of a tensor element by element, in row-major order. */
  ghost function ElementMoves(shape: seq<nat>, from: seq<int>, to: seq<int>, elementSize: nat): seq<Move>
    requires |shape| == |from| == |to|
  {
    Moves(DimsOf(shape, from, to, elementSize), elementSize, 0, 0)
  }

  /** Dimensions with strides in elements of `elementSize` bytes. */
  ghost function DimsOf(shape: seq<nat>, from: seq<int>, to: seq<int>, elementSize: nat): (dims: seq<Dim>)
    requires |shape| == |from| == |to|
    ensures |dims| == |shape|
  {
    seq(|shape|, i requires 0 <= i < |shape| => Dim(shape[i], from[i] * elementSize, to[i] * elementSize))
  }

  // -------------------------------------------------------------------------
  // Coalescing

  lemma ChunkGrows(size: nat, n: nat, a: int, b: int)
    ensures Chunk(n * size, a, b) + Chunk(size, a + n * size, b + n * size) == Chunk((n + 1) * size, a, b)
  {
    assert (n + 1) * size == n * size + size;
  }

  /** A dimension whose stride is the size of what it holds extends the chunk. */
  lemma {:induction false} DimExtendsChunk(dims: seq<Dim>, size: nat, inner: nat, a: int, b: int, n: nat)
    requires dims != [] && dims[0].from == dims[0].to == inner
    requires forall a, b :: Moves(dims[1..], size, a, b) == Chunk(inner, a, b)
    ensures MovesUpTo(dims, size, a, b, n) == Chunk(n * inner, a, b)
    decreases n
  {
    if n > 0 {
      DimExtendsChunk(dims, size, inner, a, b, n - 1);
      ChunkGrows(inner, n - 1, a, b);
    }
  }

  /** A dimension of one element does not change the copy. */
  lemma {:induction false} OneIsSkipped(dims: seq<Dim>, size: nat, a: int, b: int)
    requires dims != [] && dims[0].extent == 1
    ensures Moves(dims, size, a, b) == Moves(dims[1..], size, a, b)
  {
    assert MovesUpTo(dims, size, a, b, 1) == MovesUpTo(dims, size, a, b, 0) + Moves(dims[1..], size, a + 0 * dims[0].from, b + 0 * dims[0].to);
  }

  ghost function WithoutOnes(dims: seq<Dim>): seq<Dim> {
    if dims == [] then [] else (if dims[0].extent == 1 then [] else [dims[0]]) + WithoutOnes(dims[1..])
  }

  lemma {:induction false} SameUpTo(d: seq<Dim>, e: seq<Dim>, sizeD: nat, sizeE: nat, a: int, b: int, n: nat)
    requires d != [] && e != [] && d[0] == e[0]
    requires forall a, b :: Moves(d[1..], sizeD, a, b) == Moves(e[1..], sizeE, a, b)
    ensures MovesUpTo(d, sizeD, a, b, n) == MovesUpTo(e, sizeE, a, b, n)
    decreases n
  {
    if n > 0 { SameUpTo(d, e, sizeD, sizeE, a, b, n - 1); }
  }

  /** Inner dimensions can be replaced by a chunk, and dimensions of one element dropped from the outer ones. */
  lemma {:induction false} Coalesced(outer: seq<Dim>, inner: seq<Dim>, size: nat, chunk: nat, a: int, b: int)
    requires forall a, b :: Moves(inner, size, a, b) == Chunk(chunk, a, b)
    ensures Moves(outer + inner, size, a, b) == Moves(WithoutOnes(outer), chunk, a, b)
    decreases |outer|
  {
    if outer == [] {
      assert outer + inner == inner;
    } else {
      var all := outer + inner;
      assert all[1..] == outer[1..] + inner;
      forall a, b ensures Moves(all[1..], size, a, b) == Moves(WithoutOnes(outer[1..]), chunk, a, b) {
        Coalesced(outer[1..], inner, size, chunk, a, b);
      }
      if outer[0].extent == 1 {
        OneIsSkipped(all, size, a, b);
        assert WithoutOnes(outer) == WithoutOnes(outer[1..]);
      } else {
        assert WithoutOnes(outer)[1..] == WithoutOnes(outer[1..]);
        SameUpTo(all, WithoutOnes(outer), size, chunk, a, b, outer[0].extent);
      }
    }
  }

  lemma {:induction false} WithoutOnesNext(dims: seq<Dim>, i: nat)
    requires i < |dims|
    ensures WithoutOnes(dims[..i + 1]) == WithoutOnes(dims[..i]) + if dims[i].extent == 1 then [] else [dims[i]]
    decreases i
  {
    if i > 0 {
      assert dims[..i + 1][1..] == dims[1..][..i] && dims[..i][1..] == dims[1..][..i - 1];
      WithoutOnesNext(dims[1..], i - 1);
    }
  }

  datatype Element = Element(kind: nat, bits: nat)

  /** Strides are in elements. */
  datatype MemRef = MemRef(shape: seq<nat>, element: Element, strides: seq<int>)

  /** Shape, strides in bytes and size of the contiguous pieces. */
  datatype Descriptor = Descriptor(shape: seq<nat>, from: seq<int>, to: seq<int>, chunk: nat)

  ghost predicate ValidDescriptor(d: Descriptor) {
    |d.shape| == |d.from| == |d.to|
  }

  ghost function DescriptorMoves(d: Descriptor, a: int, b: int): seq<Move>
    requires ValidDescriptor(d)
  {
    Moves(DimsOf(d.shape, d.from, d.to, 1), d.chunk, a, b)
  }

  /** The fewest bytes that hold an element. */
  function ElementSize(e: Element): (size: nat)
    ensures Holds(size, e.bits)
  {
    (e.bits + 7) / 8
  }

  predicate Holds(bytes: nat, bits: nat) {
    bits <= 8 * bytes < bits + 8
  }

  ghost function Product(shape: seq<nat>): nat {
    if shape == [] then 1 else shape[0] * Product(shape[1..])
  }

  /** From dimension `i` on source and destination are both laid out in row-major order without gaps. */
  ghost predicate GapFree(shape: seq<nat>, from: seq<int>, to: seq<int>, i: nat)
    requires |shape| == |from| == |to|
  {
    i <= |shape| && forall k :: i <= k < |shape| ==> from[k] == to[k] == Product(shape[k + 1..])
  }

  /** The chunk is the longest part without gaps; what is left are the dimensions before it that have other than one
      element. */
  ghost predicate Coalesces(d: Descriptor, from: MemRef, to: MemRef, last: nat)
    requires |from.shape| == |from.strides| == |to.strides| && ValidDescriptor(d)
  {
    var size := ElementSize(from.element);
    && GapFree(from.shape, from.strides, to.strides, last)
    && (last > 0 ==> !GapFree(from.shape, from.strides, to.strides, last - 1))
    && d.chunk == Product(from.shape[last..]) * size
    && 1 !in d.shape
    && DimsOf(d.shape, d.from, d.to, 1) == WithoutOnes(DimsOf(from.shape, from.strides, to.strides, size)[..last])
  }

  /** Describes the copy of `from` to `to`: trailing dimensions that are laid out alike without gaps become one chunk, and
      dimensions of one element are dropped. The bytes moved are those of the element by element copy, in the same order. */
  method ComputeStrides(from: MemRef, to: MemRef) returns (ok: bool, d: Descriptor, ghost last: nat)
    requires |from.shape| == |from.strides| && |to.shape| == |to.strides|
    ensures ok <==> |from.shape| == |to.shape| && from.element == to.element
    ensures ok ==> ValidDescriptor(d)
                   && DescriptorMoves(d, 0, 0) == ElementMoves(from.shape, from.strides, to.strides, ElementSize(from.element))
    ensures ok ==> Coalesces(d, from, to, last)
  {
    d, last := Descriptor([], [], [], 0), 0;
    if |from.shape| != |to.shape| || from.element != to.element {
      return false, d, last;
    }
    hide Moves;
    hide Chunk;
    ghost var size := ElementSize(from.element);
    ghost var dims := DimsOf(from.shape, from.strides, to.strides, size);
    var contiguous, dim := ContiguousPart(from.shape, from.strides, to.strides, size);
    last := dim;
    var elementSize := (from.element.bits + 7) / 8;
    var shape, fromBytes, toBytes := [], [], [];
    for i := 0 to dim
      invariant |shape| == |fromBytes| == |toBytes| && 1 !in shape
      invariant DimsOf(shape, fromBytes, toBytes, 1) == WithoutOnes(dims[..i])
    {
      WithoutOnesNext(dims, i);
      if from.shape[i] != 1 {
        shape := shape + [from.shape[i]];
        fromBytes := fromBytes + [from.strides[i] * elementSize];
        toBytes := toBytes + [to.strides[i] * elementSize];
      }
    }
    d := Descriptor(shape, fromBytes, toBytes, contiguous * elementSize);
    assert dims == dims[..last] + dims[last..];
    Coalesced(dims[..last], dims[last..], size, contiguous * size, 0, 0);
    ok := true;
  }

  /** Finds the trailing dimensions that are laid out without gaps in source and destination alike. */
  method ContiguousPart(shape: seq<nat>, from: seq<int>, to: seq<int>, ghost size: nat)
    returns (contiguous: nat, last: nat)
    requires |shape| == |from| == |to|
    ensures last <= |shape|
    ensures forall a, b :: Moves(DimsOf(shape, from, to, size)[last..], size, a, b) == Chunk(contiguous * size, a, b)
    ensures contiguous == Product(shape[last..]) && GapFree(shape, from, to, last)
    ensures last > 0 ==> !GapFree(shape, from, to, last - 1)
  {
    ghost var dims := DimsOf(shape, from, to, size);
    contiguous, last := 1, |shape|;
    while last > 0 && from[last - 1] == to[last - 1] == contiguous
      invariant last <= |shape| && contiguous == Product(shape[last..]) && GapFree(shape, from, to, last)
      invariant forall a, b :: Moves(dims[last..], size, a, b) == Chunk(contiguous * size, a, b)
    {
      ContiguousNext(dims, last - 1, size, contiguous);
      ScaleProduct(shape[last - 1], contiguous, size);
      contiguous := contiguous * shape[last - 1];
      last := last - 1;
    }
  }

  lemma {:induction false} ContiguousNext(dims: seq<Dim>, i: nat, size: nat, contiguous: nat)
    requires i < |dims| && dims[i].from == dims[i].to == contiguous * size
    requires forall a, b :: Moves(dims[i + 1..], size, a, b) == Chunk(contiguous * size, a, b)
    ensures forall a, b :: Moves(dims[i..], size, a, b) == Chunk(dims[i].extent * (contiguous * size), a, b)
  {
    assert dims[i..][1..] == dims[i + 1..];
    forall a, b ensures Moves(dims[i..], size, a, b) == Chunk(dims[i].extent * (contiguous * size), a, b) {
      DimExtendsChunk(dims[i..], size, contiguous * size, a, b, dims[i].extent);
    }
  }

  lemma ScaleProduct(extent: nat, contiguous: nat, size: nat)
    ensures extent * (contiguous * size) == (contiguous * extent) * size
  {}

  // -------------------------------------------------------------------------
  // The runtime

  type Byte = bv8

  datatype Space = Xram | Lram | OtherSpace

  predicate Within(bytes: seq<Byte>, address: int, size: nat) {
    size == 0 || (0 <= address && address + size <= |bytes|)
  }

  function Piece(bytes: seq<Byte>, address: int, size: nat): (piece: seq<Byte>)
    requires Within(bytes, address, size)
    ensures |piece| == size
  {
    if size == 0 then [] else bytes[address..address + size]
  }

  function Stored(bytes: seq<Byte>, address: int, data: seq<Byte>): (stored: seq<Byte>)
    requires Within(bytes, address, |data|)
    ensures |stored| == |bytes|
  {
    if data == [] then bytes else bytes[..address] + data + bytes[address + |data|..]
  }

  /** A piece of `size` bytes of `source` is stored at `to`. */
  lemma StoredPiece(source: seq<Byte>, from: int, destination: seq<Byte>, to: int, size: nat, x: int)
    requires Within(source, from, size) && Within(destination, to, size) && 0 <= x < |destination|
    ensures Stored(destination, to, Piece(source, from, size))[x]
              == if to <= x < to + size then source[from + (x - to)] else destination[x]
  {}

  /** The memories of the device; an access outside of them fails. */
  class Device {
    var xram: seq<Byte>
    var lram: seq<Byte>

    ghost function Bank(space: Space): seq<Byte>
      reads this
    {
      match space case Xram => xram case Lram => lram case OtherSpace => []
    }

    method Read(space: Space, address: int, size: nat) returns (ok: bool, data: seq<Byte>)
      ensures ok <==> !space.OtherSpace? && Within(Bank(space), address, size)
      ensures ok ==> data == Piece(Bank(space), address, size)
    {
      var bytes := if space.Xram? then xram else lram;
      ok := !space.OtherSpace? && Within(bytes, address, size);
      data := if ok then Piece(bytes, address, size) else [];
    }

    method Write(space: Space, address: int, data: seq<Byte>) returns (ok: bool)
      modifies this
      ensures ok <==> !space.OtherSpace? && Within(old(Bank(space)), address, |data|)
      ensures |xram| == old(|xram|) && |lram| == old(|lram|)
      ensures forall s: Space :: s != space || !ok ==> Bank(s) == old(Bank(s))
      ensures ok ==> Bank(space) == Stored(old(Bank(space)), address, data)
    {
      hide Within;
      hide Stored;
      var bytes := if space.Xram? then xram else lram;
      ok := !space.OtherSpace? && Within(bytes, address, |data|);
      if ok {
        bytes := Stored(bytes, address, data);
        if space.Xram? { xram := bytes; } else { lram := bytes; }
      }
    }
  }

  datatype Params = Params(inputType: Space, inputAddress: int, outputType: Space, outputAddress: int, copy: Descriptor)

  ghost predicate Supported(p: Params) {
    !p.inputType.OtherSpace? && !p.outputType.OtherSpace?
  }

  /** All accesses are within the memories. */
  ghost predicate InRange(p: Params, moves: seq<Move>, sources: nat, destinations: nat) {
    forall k :: 0 <= k < |moves| ==>
      0 <= p.inputAddress + moves[k].from < sources && 0 <= p.outputAddress + moves[k].to < destinations
  }

  /** No byte of the destination is one of the source. */
  ghost predicate Apart(p: Params, moves: seq<Move>) {
    p.inputType == p.outputType ==>
      forall k, l :: 0 <= k < |moves| && 0 <= l < |moves| ==>
        p.inputAddress + moves[k].from != p.outputAddress + moves[l].to
  }

  /** The destination after some moves of bytes of `source`. */
  ghost function Written(p: Params, moves: seq<Move>, source: seq<Byte>, destination: seq<Byte>): (r: seq<Byte>)
    requires InRange(p, moves, |source|, |destination|)
    ensures |r| == |destination|
    decreases |moves|
  {
    if moves == [] then destination
    else
      var m := moves[|moves| - 1];
      Written(p, moves[..|moves| - 1], source, destination)[p.outputAddress + m.to := source[p.inputAddress + m.from]]
  }

  ghost predicate Touched(p: Params, moves: seq<Move>, x: int) {
    exists k :: 0 <= k < |moves| && x == p.outputAddress + moves[k].to
  }

  lemma {:induction false} UntouchedStays(
        p: Params, moves: seq<Move>, source: seq<Byte>, destination: seq<Byte>, x: int)
    requires InRange(p, moves, |source|, |destination|) && 0 <= x < |destination| && !Touched(p, moves, x)
    ensures Written(p, moves, source, destination)[x] == destination[x]
    decreases |moves|
  {
    if moves != [] {
      assert x != p.outputAddress + moves[|moves| - 1].to;
      UntouchedStays(p, moves[..|moves| - 1], source, destination, x);
    }
  }

  lemma {:induction false} WrittenSum(p: Params, a: seq<Move>, b: seq<Move>, source: seq<Byte>, destination: seq<Byte>)
    requires InRange(p, a + b, |source|, |destination|)
    ensures InRange(p, a, |source|, |destination|) && InRange(p, b, |source|, |destination|)
    ensures Written(p, a + b, source, destination) == Written(p, b, source, Written(p, a, source, destination))
    decreases |b|
  {
    RangeOfSum(p, a, b, |source|, |destination|);
    if b == [] {
      assert a + b == a;
    } else {
      assert (a + b)[..|a + b| - 1] == a + b[..|b| - 1];
      WrittenSum(p, a, b[..|b| - 1], source, destination);
    }
  }

  lemma RangeOfSum(p: Params, a: seq<Move>, b: seq<Move>, sources: nat, destinations: nat)
    ensures InRange(p, a + b, sources, destinations) <==>
              InRange(p, a, sources, destinations) && InRange(p, b, sources, destinations)
  {
    forall k | 0 <= k < |b| ensures b[k] == (a + b)[|a| + k] {}
    forall k | 0 <= k < |a| ensures a[k] == (a + b)[k] {}
  }

  /** Bytes outside of the source do not matter. */
  lemma {:induction false} SameSource(p: Params, moves: seq<Move>, s: seq<Byte>, t: seq<Byte>, destination: seq<Byte>)
    requires InRange(p, moves, |s|, |destination|) && |s| == |t|
    requires forall k :: 0 <= k < |moves| ==> s[p.inputAddress + moves[k].from] == t[p.inputAddress + moves[k].from]
    ensures Written(p, moves, s, destination) == Written(p, moves, t, destination)
    decreases |moves|
  {
    if moves != [] { SameSource(p, moves[..|moves| - 1], s, t, destination); }
  }

  lemma ChunkInRange(p: Params, size: nat, a: int, b: int, source: seq<Byte>, destination: seq<Byte>)
    ensures InRange(p, Chunk(size, a, b), |source|, |destination|) <==>
              Within(source, p.inputAddress + a, size) && Within(destination, p.outputAddress + b, size)
  {
    if InRange(p, Chunk(size, a, b), |source|, |destination|) && size > 0 {
      assert Chunk(size, a, b)[0] == Move(a, b) && Chunk(size, a, b)[size - 1] == Move(a + size - 1, b + size - 1);
    }
  }

  /** A chunk is written as its bytes one after another. */
  lemma {:induction false} WrittenChunk(p: Params, size: nat, a: int, b: int, source: seq<Byte>, destination: seq<Byte>)
    requires Within(source, p.inputAddress + a, size) && Within(destination, p.outputAddress + b, size)
    ensures InRange(p, Chunk(size, a, b), |source|, |destination|)
    ensures forall x :: 0 <= x < |destination| ==>
              var first := p.outputAddress + b;
              Written(p, Chunk(size, a, b), source, destination)[x]
                == if first <= x < first + size then source[p.inputAddress + a + (x - first)] else destination[x]
    decreases size
  {
    ChunkInRange(p, size, a, b, source, destination);
    if size > 0 {
      assert Chunk(size, a, b)[..size - 1] == Chunk(size - 1, a, b);
      WrittenChunk(p, size - 1, a, b, source, destination);
    }
  }

  /** Copies one chunk. */
  method CopyElement(dev: Device, p: Params, a: int, b: int) returns (ok: bool)
    modifies dev
    ensures |dev.xram| == old(|dev.xram|) && |dev.lram| == old(|dev.lram|)
    ensures forall s: Space :: s != p.outputType ==> dev.Bank(s) == old(dev.Bank(s))
    ensures ok <==> Supported(p)
                    && InRange(p, Chunk(p.copy.chunk, a, b), |old(dev.Bank(p.inputType))|, |old(dev.Bank(p.outputType))|)
    ensures dev.Bank(p.outputType) ==
            if ok then Written(p, Chunk(p.copy.chunk, a, b), old(dev.Bank(p.inputType)), old(dev.Bank(p.outputType)))
            else old(dev.Bank(p.outputType))
  {
    var size := p.copy.chunk;
    ghost var source, destination := dev.Bank(p.inputType), dev.Bank(p.outputType);
    ChunkInRange(p, size, a, b, source, destination);
    hide InRange;
    hide Within;
    hide Written;
    hide Chunk;
    hide Piece;
    hide Stored;
    var data;
    ok, data := dev.Read(p.inputType, p.inputAddress + a, size);
    if !ok {
      return;
    }
    ok := dev.Write(p.outputType, p.outputAddress + b, data);
    if ok {
      ChunkWritten(p, size, a, b, source, destination);
    }
  }

  lemma {:induction false} ChunkWritten(
      p: Params, size: nat, a: int, b: int, source: seq<Byte>, destination: seq<Byte>)
    requires Within(source, p.inputAddress + a, size) && Within(destination, p.outputAddress + b, size)
    ensures InRange(p, Chunk(size, a, b), |source|, |destination|)
    ensures Stored(destination, p.outputAddress + b, Piece(source, p.inputAddress + a, size))
              == Written(p, Chunk(size, a, b), source, destination)
  {
    WrittenChunk(p, size, a, b, source, destination);
    var stored := Stored(destination, p.outputAddress + b, Piece(source, p.inputAddress + a, size));
    var written := Written(p, Chunk(size, a, b), source, destination);
    forall x | 0 <= x < |destination| ensures stored[x] == written[x] {
      hide *;
      StoredPiece(source, p.inputAddress + a, destination, p.outputAddress + b, size, x);
    }
  }

  ghost function BlockMoves(p: Params, dim: nat, a: int, b: int): seq<Move>
    requires ValidDescriptor(p.copy) && dim <= |p.copy.shape|
  {
    Moves(DimsOf(p.copy.shape, p.copy.from, p.copy.to, 1)[dim..], p.copy.chunk, a, b)
  }

  ghost predicate OnlyTouched(p: Params, moves: seq<Move>, before: seq<Byte>, after: seq<Byte>) {
    |after| == |before| && forall x :: 0 <= x < |before| && !Touched(p, moves, x) ==> after[x] == before[x]
  }

  lemma TouchedSum(p: Params, a: seq<Move>, b: seq<Move>, x: int)
    ensures Touched(p, a + b, x) <==> Touched(p, a, x) || Touched(p, b, x)
  {
    if k :| 0 <= k < |b| && x == p.outputAddress + b[k].to { assert (a + b)[|a| + k] == b[k]; }
    if k :| 0 <= k < |a| && x == p.outputAddress + a[k].to { assert (a + b)[k] == a[k]; }
  }

  lemma OnlyTouchedSum(p: Params, a: seq<Move>, b: seq<Move>, d0: seq<Byte>, d1: seq<Byte>, d2: seq<Byte>)
    requires OnlyTouched(p, a, d0, d1) && OnlyTouched(p, b, d1, d2)
    ensures OnlyTouched(p, a + b, d0, d2)
  {
    forall x | 0 <= x < |d0| && !Touched(p, a + b, x) ensures d2[x] == d0[x] { TouchedSum(p, a, b, x); }
  }

  lemma ApartSum(p: Params, a: seq<Move>, b: seq<Move>)
    requires Apart(p, a + b)
    ensures Apart(p, a) && Apart(p, b)
  {
    forall k | 0 <= k < |b| ensures b[k] == (a + b)[|a| + k] {}
    forall k | 0 <= k < |a| ensures a[k] == (a + b)[k] {}
  }

  /** The destination after `b`, when `a` has been copied before it. */
  lemma {:induction false} CopiedSum(
        p: Params, a: seq<Move>, b: seq<Move>, s0: seq<Byte>, s1: seq<Byte>, d0: seq<Byte>, d1: seq<Byte>)
    requires InRange(p, a, |s0|, |d0|) && InRange(p, b, |s0|, |d0|) && Apart(p, a + b)
    requires d1 == Written(p, a, s0, d0)
    requires if p.inputType == p.outputType then s0 == d0 && s1 == d1 else s1 == s0
    ensures InRange(p, a + b, |s0|, |d0|) && Written(p, b, s1, d1) == Written(p, a + b, s0, d0)
  {
    RangeOfSum(p, a, b, |s0|, |d0|);
    WrittenSum(p, a, b, s0, d0);
    forall k | 0 <= k < |b| ensures s0[p.inputAddress + b[k].from] == s1[p.inputAddress + b[k].from] {
      if p.inputType == p.outputType {
        SourceUntouched(p, a, b, k);
        UntouchedStays(p, a, s0, d0, p.inputAddress + b[k].from);
      }
    }
    SameSource(p, b, s0, s1, d1);
  }

  lemma SourceUntouched(p: Params, a: seq<Move>, b: seq<Move>, k: nat)
    requires Apart(p, a + b) && p.inputType == p.outputType && k < |b|
    ensures !Touched(p, a, p.inputAddress + b[k].from)
  {
    assert (a + b)[|a| + k] == b[k];
    forall l | 0 <= l < |a| ensures p.inputAddress + b[k].from != p.outputAddress + a[l].to {
      assert (a + b)[l] == a[l];
    }
  }

  lemma {:induction false} RangeOfPrefix(
        p: Params, dims: seq<Dim>, size: nat, a: int, b: int, i: nat, n: nat, sources: nat, destinations: nat)
    requires dims != [] && i <= n && InRange(p, MovesUpTo(dims, size, a, b, n), sources, destinations)
    ensures InRange(p, MovesUpTo(dims, size, a, b, i), sources, destinations)
    decreases n
  {
    if i < n {
      RangeOfSum(p, MovesUpTo(dims, size, a, b, n - 1),
                 Moves(dims[1..], size, a + (n - 1) * dims[0].from, b + (n - 1) * dims[0].to), sources, destinations);
      RangeOfPrefix(p, dims, size, a, b, i, n - 1, sources, destinations);
    }
  }

  lemma {:induction false} TouchedPrefix(
        p: Params, dims: seq<Dim>, size: nat, a: int, b: int, i: nat, n: nat, before: seq<Byte>, after: seq<Byte>)
    requires dims != [] && i <= n && OnlyTouched(p, MovesUpTo(dims, size, a, b, i), before, after)
    ensures OnlyTouched(p, MovesUpTo(dims, size, a, b, n), before, after)
    decreases n
  {
    if i < n {
      TouchedPrefix(p, dims, size, a, b, i, n - 1, before, after);
      OnlyTouchedSum(p, MovesUpTo(dims, size, a, b, n - 1),
                     Moves(dims[1..], size, a + (n - 1) * dims[0].from, b + (n - 1) * dims[0].to), before, after, after);
    }
  }

  /** The memories have kept their sizes, and all bytes that `moves` do not write. */
  twostate predicate OnlyWrites(dev: Device, p: Params, moves: seq<Move>)
    reads dev
  {
    && |dev.xram| == old(|dev.xram|) && |dev.lram| == old(|dev.lram|)
    && (forall s: Space :: s != p.outputType ==> dev.Bank(s) == old(dev.Bank(s)))
    && OnlyTouched(p, moves, old(dev.Bank(p.outputType)), dev.Bank(p.outputType))
  }

  /** Copies what lies under one index of the dimensions before `dim`, recursively. */
  method CopyDimension(dev: Device, p: Params, dim: nat, a: int, b: int) returns (ok: bool)
    requires ValidDescriptor(p.copy) && dim <= |p.copy.shape|
    modifies dev
    ensures OnlyWrites(dev, p, BlockMoves(p, dim, a, b))
    ensures ok ==> InRange(p, BlockMoves(p, dim, a, b), |old(dev.Bank(p.inputType))|, |old(dev.Bank(p.outputType))|)
    ensures ok && Apart(p, BlockMoves(p, dim, a, b)) ==>
              dev.Bank(p.outputType)
                == Written(p, BlockMoves(p, dim, a, b), old(dev.Bank(p.inputType)), old(dev.Bank(p.outputType)))
    ensures !ok ==> !Supported(p)
                    || !InRange(p, BlockMoves(p, dim, a, b), |old(dev.Bank(p.inputType))|, |old(dev.Bank(p.outputType))|)
    decreases |p.copy.shape| - dim
  {
    ghost var dims := DimsOf(p.copy.shape, p.copy.from, p.copy.to, 1)[dim..];
    ghost var source, destination := dev.Bank(p.inputType), dev.Bank(p.outputType);
    if dim == |p.copy.shape| {
      ok := CopyElement(dev, p, a, b);
      if ok {
        UntouchedAll(p, BlockMoves(p, dim, a, b), source, destination);
      }
      return;
    }
    var n := p.copy.shape[dim];
    ghost var size := p.copy.chunk;
    for i := 0 to n
      invariant OnlyWrites(dev, p, MovesUpTo(dims, size, a, b, i))
      invariant InRange(p, MovesUpTo(dims, size, a, b, i), |source|, |destination|)
      invariant Apart(p, MovesUpTo(dims, size, a, b, i)) ==>
                  dev.Bank(p.outputType) == Written(p, MovesUpTo(dims, size, a, b, i), source, destination)
    {
      ghost var before := MovesUpTo(dims, size, a, b, i);
      ghost var block := BlockMoves(p, dim + 1, a + i * p.copy.from[dim], b + i * p.copy.to[dim]);
      assert MovesUpTo(dims, size, a, b, i + 1) == before + block by { BlockOf(p, dim, a, b, i); }
      ghost var source1, destination1 := dev.Bank(p.inputType), dev.Bank(p.outputType);
      ok := CopyDimension(dev, p, dim + 1, a + i * p.copy.from[dim], b + i * p.copy.to[dim]);
      OnlyTouchedSum(p, before, block, destination, destination1, dev.Bank(p.outputType));
      RangeOfSum(p, before, block, |source|, |destination|);
      if !ok {
        TouchedPrefix(p, dims, size, a, b, i + 1, n, destination, dev.Bank(p.outputType));
        if InRange(p, MovesUpTo(dims, size, a, b, n), |source|, |destination|) {
          RangeOfPrefix(p, dims, size, a, b, i + 1, n, |source|, |destination|);
        }
        return;
      }
      if Apart(p, before + block) {
        ApartSum(p, before, block);
        CopiedSum(p, before, block, source, source1, destination, destination1);
      }
    }
    ok := true;
  }

  lemma BlockOf(p: Params, dim: nat, a: int, b: int, i: nat)
    requires ValidDescriptor(p.copy) && dim < |p.copy.shape|
    ensures var dims := DimsOf(p.copy.shape, p.copy.from, p.copy.to, 1)[dim..];
            MovesUpTo(dims, p.copy.chunk, a, b, i + 1)
              == MovesUpTo(dims, p.copy.chunk, a, b, i)
                 + BlockMoves(p, dim + 1, a + i * p.copy.from[dim], b + i * p.copy.to[dim])
  {
    var dims := DimsOf(p.copy.shape, p.copy.from, p.copy.to, 1);
    assert dims[dim..][1..] == dims[dim + 1..];
  }

  lemma {:induction false} UntouchedAll(p: Params, moves: seq<Move>, source: seq<Byte>, destination: seq<Byte>)
    requires InRange(p, moves, |source|, |destination|)
    ensures forall x :: 0 <= x < |destination| && !Touched(p, moves, x) ==>
              Written(p, moves, source, destination)[x] == destination[x]
  {
    forall x | 0 <= x < |destination| && !Touched(p, moves, x)
      ensures Written(p, moves, source, destination)[x] == destination[x]
    {
      UntouchedStays(p, moves, source, destination, x);
    }
  }

  /** The byte written by the last move to it. */
  lemma {:induction false} LastMoveWins(p: Params, moves: seq<Move>, source: seq<Byte>, destination: seq<Byte>, k: nat)
    requires InRange(p, moves, |source|, |destination|) && k < |moves|
    requires forall l :: k < l < |moves| ==> moves[l].to != moves[k].to
    ensures Written(p, moves, source, destination)[p.outputAddress + moves[k].to] == source[p.inputAddress + moves[k].from]
    decreases |moves|
  {
    if k < |moves| - 1 {
      assert moves[|moves| - 1].to != moves[k].to;
      LastMoveWins(p, moves[..|moves| - 1], source, destination, k);
    }
  }

  /** A position in a tensor, with the distances to it in source and destination. */
  ghost predicate Indexes(index: seq<nat>, dims: seq<Dim>) {
    |index| == |dims| && forall i :: 0 <= i < |index| ==> index[i] < dims[i].extent
  }

  ghost function FromOffset(index: seq<nat>, dims: seq<Dim>): int
    requires Indexes(index, dims)
  {
    if index == [] then 0 else index[0] * dims[0].from + FromOffset(index[1..], dims[1..])
  }

  ghost function ToOffset(index: seq<nat>, dims: seq<Dim>): int
    requires Indexes(index, dims)
  {
    if index == [] then 0 else index[0] * dims[0].to + ToOffset(index[1..], dims[1..])
  }

  /** Every byte of every element is moved, from its place in the source to its place in the destination. */
  lemma {:induction false} EveryElementMoves(dims: seq<Dim>, size: nat, a: int, b: int, index: seq<nat>, k: nat)
    requires Indexes(index, dims) && k < size
    ensures Move(a + FromOffset(index, dims) + k, b + ToOffset(index, dims) + k) in Moves(dims, size, a, b)
    decreases |dims|
  {
    if dims == [] {
      assert Chunk(size, a, b)[k] == Move(a + k, b + k);
    } else {
      var i := index[0];
      EveryElementMoves(dims[1..], size, a + i * dims[0].from, b + i * dims[0].to, index[1..], k);
      BlockIsIncluded(dims, size, a, b, i, dims[0].extent);
    }
  }

  lemma {:induction false} BlockIsIncluded(dims: seq<Dim>, size: nat, a: int, b: int, i: nat, n: nat)
    requires dims != [] && i < n
    ensures forall m :: m in Moves(dims[1..], size, a + i * dims[0].from, b + i * dims[0].to) ==>
              m in MovesUpTo(dims, size, a, b, n)
    decreases n
  {
    if i < n - 1 { BlockIsIncluded(dims, size, a, b, i, n - 1); }
  }

  ghost predicate MoveOf(dims: seq<Dim>, size: nat, a: int, b: int, m: Move, index: seq<nat>, k: nat) {
    Indexes(index, dims) && k < size && m == Move(a + FromOffset(index, dims) + k, b + ToOffset(index, dims) + k)
  }

  /** Nothing else is moved. */
  lemma {:induction false} OnlyElementsMove(
        dims: seq<Dim>, size: nat, a: int, b: int, m: Move) returns (index: seq<nat>, k: nat)
    requires m in Moves(dims, size, a, b)
    ensures MoveOf(dims, size, a, b, m, index, k)
    decreases |dims|
  {
    if dims == [] {
      index := [];
      k :| k < |Chunk(size, a, b)| && Chunk(size, a, b)[k] == m;
    } else {
      var i := BlockWith(dims, size, a, b, m, dims[0].extent);
      index, k := OnlyElementsMove(dims[1..], size, a + i * dims[0].from, b + i * dims[0].to, m);
      index := [i] + index;
    }
  }

  lemma {:induction false} BlockWith(dims: seq<Dim>, size: nat, a: int, b: int, m: Move, n: nat) returns (i: nat)
    requires dims != [] && m in MovesUpTo(dims, size, a, b, n)
    ensures i < n && m in Moves(dims[1..], size, a + i * dims[0].from, b + i * dims[0].to)
    decreases n
  {
    if m in MovesUpTo(dims, size, a, b, n - 1) {
      i := BlockWith(dims, size, a, b, m, n - 1);
    } else {
      i := n - 1;
    }
  }

  // -------------------------------------------------------------------------
  // Tensors, bit by bit

  ghost predicate InShape(index: seq<nat>, shape: seq<nat>) {
    |index| == |shape| && forall i :: 0 <= i < |index| ==> index[i] < shape[i]
  }

  /** The distance of an element from the first one, in elements. */
  ghost function Offset(index: seq<nat>, strides: seq<int>): int
    requires |index| == |strides|
  {
    if index == [] then 0 else index[0] * strides[0] + Offset(index[1..], strides[1..])
  }

  /** No two elements have the same place. */
  ghost predicate Distinct(shape: seq<nat>, strides: seq<int>)
    requires |shape| == |strides|
  {
    forall i, j :: InShape(i, shape) && InShape(j, shape) && Offset(i, strides) == Offset(j, strides) ==> i == j
  }

  /** Byte `k` of an element of `bytes` bytes. */
  ghost function ByteOf(address: int, bytes: nat, strides: seq<int>, index: seq<nat>, k: nat): int
    requires |index| == |strides|
  {
    address + Offset(index, strides) * bytes + k
  }

  /** No byte of the elements of the one tensor is a byte of the other. */
  ghost predicate TensorsApart(shape: seq<nat>, from: seq<int>, to: seq<int>, input: int, output: int, bytes: nat)
    requires |shape| == |from| == |to|
  {
    forall i, j, k: nat, l: nat :: InShape(i, shape) && InShape(j, shape) && k < bytes && l < bytes ==>
      ByteOf(input, bytes, from, i, k) != ByteOf(output, bytes, to, j, l)
  }

  /** Every bit of every element is there, as the byte that holds it is the same in source and destination. */
  ghost predicate BitsCopied(
      shape: seq<nat>, bits: nat, from: seq<int>, to: seq<int>, input: int, output: int, bytes: nat,
      source: seq<Byte>, destination: seq<Byte>)
    requires |shape| == |from| == |to|
  {
    forall index, bit: nat :: InShape(index, shape) && bit < bits ==>
      ByteCopied(from, to, input, output, bytes, source, destination, index, bit / 8)
  }

  ghost predicate ByteCopied(
      from: seq<int>, to: seq<int>, input: int, output: int, bytes: nat, source: seq<Byte>, destination: seq<Byte>,
      index: seq<nat>, k: nat)
    requires |index| == |from| == |to|
  {
    var x, y := ByteOf(input, bytes, from, index, k), ByteOf(output, bytes, to, index, k);
    0 <= x < |source| && 0 <= y < |destination| && destination[y] == source[x]
  }

  /** `x` is a byte of an element. */
  ghost predicate InTensor(shape: seq<nat>, strides: seq<int>, address: int, bytes: nat, x: int)
    requires |shape| == |strides|
  {
    exists index, k: nat :: InShape(index, shape) && k < bytes && ByteOf(address, bytes, strides, index, k) == x
  }

  lemma {:induction false} OffsetsInBytes(shape: seq<nat>, from: seq<int>, to: seq<int>, size: nat, index: seq<nat>)
    requires |shape| == |from| == |to|
    ensures Indexes(index, DimsOf(shape, from, to, size)) <==> InShape(index, shape)
    ensures InShape(index, shape) ==>
              var dims := DimsOf(shape, from, to, size);
              FromOffset(index, dims) == Offset(index, from) * size && ToOffset(index, dims) == Offset(index, to) * size
    decreases |shape|
  {
    var dims := DimsOf(shape, from, to, size);
    if InShape(index, shape) && index != [] {
      assert InShape(index[1..], shape[1..]);
      OffsetsInBytes(shape[1..], from[1..], to[1..], size, index[1..]);
      assert dims[1..] == DimsOf(shape[1..], from[1..], to[1..], size);
      Scaled(index[0], from[0], Offset(index[1..], from[1..]), size);
      Scaled(index[0], to[0], Offset(index[1..], to[1..]), size);
    }
  }

  lemma Scaled(i: int, stride: int, rest: int, size: int)
    ensures (i * stride + rest) * size == i * (stride * size) + rest * size
  {}

  /** The moves of a tensor, in terms of its elements. */
  lemma TensorMove(shape: seq<nat>, from: seq<int>, to: seq<int>, size: nat, index: seq<nat>, k: nat)
    requires |shape| == |from| == |to| && InShape(index, shape) && k < size
    ensures Move(ByteOf(0, size, from, index, k), ByteOf(0, size, to, index, k)) in ElementMoves(shape, from, to, size)
  {
    OffsetsInBytes(shape, from, to, size, index);
    EveryElementMoves(DimsOf(shape, from, to, size), size, 0, 0, index, k);
  }

  lemma OnlyTensorMoves(shape: seq<nat>, from: seq<int>, to: seq<int>, size: nat, m: Move) returns (index: seq<nat>, k: nat)
    requires |shape| == |from| == |to| && m in ElementMoves(shape, from, to, size)
    ensures InShape(index, shape) && k < size && m == Move(ByteOf(0, size, from, index, k), ByteOf(0, size, to, index, k))
  {
    index, k := OnlyElementsMove(DimsOf(shape, from, to, size), size, 0, 0, m);
    OffsetsInBytes(shape, from, to, size, index);
  }

  /** Two bytes of a tensor in the same place are the same byte of the same element. */
  lemma SameByte(shape: seq<nat>, strides: seq<int>, size: nat, i: seq<nat>, k: nat, j: seq<nat>, l: nat)
    requires |shape| == |strides| && Distinct(shape, strides) && InShape(i, shape) && InShape(j, shape) && k < size
              && l < size
    requires ByteOf(0, size, strides, i, k) == ByteOf(0, size, strides, j, l)
    ensures i == j && k == l
  {
    SameQuotient(Offset(i, strides), k, Offset(j, strides), l, size);
  }

  lemma SameQuotient(a: int, k: nat, b: int, l: nat, size: nat)
    requires k < size && l < size && a * size + k == b * size + l
    ensures a == b && k == l
  {
    if a < b { assert a * size + size <= b * size by { AtLeastOne(b - a, size); } }
    if b < a { assert b * size + size <= a * size by { AtLeastOne(a - b, size); } }
  }

  lemma AtLeastOne(d: int, size: nat)
    requires d >= 1
    ensures d * size >= size
  {}

  /** A byte that all moves to it take from the same place has the value from there. */
  lemma {:induction false} WrittenFrom(p: Params, moves: seq<Move>, source: seq<Byte>, destination: seq<Byte>, m: Move)
    requires InRange(p, moves, |source|, |destination|) && m in moves
    requires forall k :: 0 <= k < |moves| && moves[k].to == m.to ==> moves[k] == m
    ensures 0 <= p.outputAddress + m.to < |destination| && 0 <= p.inputAddress + m.from < |source|
    ensures Written(p, moves, source, destination)[p.outputAddress + m.to] == source[p.inputAddress + m.from]
    decreases |moves|
  {
    var n := |moves| - 1;
    if moves[n] != m {
      assert moves == moves[..n] + [moves[n]];
      WrittenFrom(p, moves[..n], source, destination, m);
    }
  }

  /** The moves are apart when the tensors are. */
  lemma ApartInBytes(p: Params, shape: seq<nat>, from: seq<int>, to: seq<int>, size: nat)
    requires |shape| == |from| == |to| && TensorsApart(shape, from, to, p.inputAddress, p.outputAddress, size)
    ensures Apart(p, ElementMoves(shape, from, to, size))
  {
    var moves := ElementMoves(shape, from, to, size);
    forall k, l | 0 <= k < |moves| && 0 <= l < |moves| ensures p.inputAddress + moves[k].from != p.outputAddress + moves[l].to {
      var i, x := OnlyTensorMoves(shape, from, to, size, moves[k]);
      var j, y := OnlyTensorMoves(shape, from, to, size, moves[l]);
      assert ByteOf(p.inputAddress, size, from, i, x) != ByteOf(p.outputAddress, size, to, j, y);
    }
  }

  /** After the copy element by element every bit is there. */
  lemma {:induction false} AllBitsCopied(
      p: Params, shape: seq<nat>, bits: nat, from: seq<int>, to: seq<int>, size: nat, source: seq<Byte>,
      destination: seq<Byte>)
    requires |shape| == |from| == |to| && Holds(size, bits) && Distinct(shape, to)
    requires InRange(p, ElementMoves(shape, from, to, size), |source|, |destination|)
    ensures var after := Written(p, ElementMoves(shape, from, to, size), source, destination);
            BitsCopied(shape, bits, from, to, p.inputAddress, p.outputAddress, size, source, after)
  {
    var moves := ElementMoves(shape, from, to, size);
    var after := Written(p, moves, source, destination);
    forall index, bit: nat | InShape(index, shape) && bit < bits
      ensures ByteCopied(from, to, p.inputAddress, p.outputAddress, size, source, after, index, bit / 8)
    {
      var k := bit / 8;
      assert k < size;
      TensorMove(shape, from, to, size, index, k);
      var m := Move(ByteOf(0, size, from, index, k), ByteOf(0, size, to, index, k));
      forall l | 0 <= l < |moves| && moves[l].to == m.to ensures moves[l] == m {
        var j, y := OnlyTensorMoves(shape, from, to, size, moves[l]);
        SameByte(shape, to, size, index, k, j, y);
      }
      WrittenFrom(p, moves, source, destination, m);
    }
  }

  /** Bytes that belong to no element of the destination stay. */
  lemma OtherBytesStay(
      p: Params, shape: seq<nat>, from: seq<int>, to: seq<int>, size: nat, before: seq<Byte>, after: seq<Byte>)
    requires |shape| == |from| == |to| && OnlyTouched(p, ElementMoves(shape, from, to, size), before, after)
    ensures |after| == |before|
    ensures forall x :: 0 <= x < |before| && !InTensor(shape, to, p.outputAddress, size, x) ==> after[x] == before[x]
  {
    var moves := ElementMoves(shape, from, to, size);
    forall x | 0 <= x < |before| && Touched(p, moves, x) ensures InTensor(shape, to, p.outputAddress, size, x) {
      var k :| 0 <= k < |moves| && x == p.outputAddress + moves[k].to;
      var index, y := OnlyTensorMoves(shape, from, to, size, moves[k]);
      assert ByteOf(p.outputAddress, size, to, index, y) == x;
    }
  }

  /** Runs a host copy; fails if the ranks differ, a memory is not supported, or an access is outside of its memory. */
  method ProcessHostCopy(dev: Device, p: Params) returns (ok: bool)
    modifies dev
    ensures !ValidDescriptor(p.copy) ==> !ok && dev.xram == old(dev.xram) && dev.lram == old(dev.lram)
    ensures ValidDescriptor(p.copy) ==>
              var moves := DescriptorMoves(p.copy, 0, 0);
              var source, destination := old(dev.Bank(p.inputType)), old(dev.Bank(p.outputType));
              && OnlyWrites(dev, p, moves)
              && (ok ==> InRange(p, moves, |source|, |destination|))
              && (ok && Apart(p, moves) ==> dev.Bank(p.outputType) == Written(p, moves, source, destination))
              && (!ok ==> !Supported(p) || !InRange(p, moves, |source|, |destination|))
  {
    if |p.copy.to| != |p.copy.shape| || |p.copy.from| != |p.copy.shape| {
      return false;
    }
    assert DimsOf(p.copy.shape, p.copy.from, p.copy.to, 1)[0..] == DimsOf(p.copy.shape, p.copy.from, p.copy.to, 1);
    ok := CopyDimension(dev, p, 0, 0, 0);
  }

  /** What the compiler describes and the runtime executes is the copy of the tensor element by element: with source and
      destination apart it leaves the same memory, and it changes no other byte. */
  method CopyTensor(
        dev: Device, from: MemRef, to: MemRef, inputType: Space, inputAddress: int, outputType: Space,
        outputAddress: int)
    returns (ok: bool, ghost p: Params)
    requires |from.shape| == |from.strides| && |to.shape| == |to.strides|
    modifies dev
    ensures |from.shape| != |to.shape| || from.element != to.element ==>
              !ok && dev.xram == old(dev.xram) && dev.lram == old(dev.lram)
    ensures p.inputType == inputType && p.inputAddress == inputAddress && p.outputType == outputType
    ensures p.outputAddress == outputAddress
    ensures |from.shape| == |to.shape| && from.element == to.element ==>
              var moves := ElementMoves(from.shape, from.strides, to.strides, ElementSize(from.element));
              var source, destination := old(dev.Bank(inputType)), old(dev.Bank(outputType));
              && OnlyWrites(dev, p, moves)
              && (Supported(p) ==> (ok <==> InRange(p, moves, |source|, |destination|)))
              && (ok ==> InRange(p, moves, |source|, |destination|))
              && (ok && Apart(p, moves) ==> dev.Bank(outputType) == Written(p, moves, source, destination))
    ensures ok ==> forall size :: Holds(size, from.element.bits) ==>
              var source, destination := old(dev.Bank(inputType)), old(dev.Bank(outputType));
              && (Distinct(from.shape, to.strides)
                  && (inputType == outputType ==>
                        TensorsApart(from.shape, from.strides, to.strides, inputAddress, outputAddress, size)) ==>
                    BitsCopied(from.shape, from.element.bits, from.strides, to.strides, inputAddress, outputAddress, size,
                               source, dev.Bank(outputType)))
              && |dev.Bank(outputType)| == |destination|
              && forall x :: 0 <= x < |destination| && !InTensor(from.shape, to.strides, outputAddress, size, x) ==>
                   dev.Bank(outputType)[x] == destination[x]
  {
    var copy;
    ghost var last;
    ok, copy, last := ComputeStrides(from, to);
    p := Params(inputType, inputAddress, outputType, outputAddress, copy);
    if ok {
      ok := ProcessHostCopy(dev, Params(inputType, inputAddress, outputType, outputAddress, copy));
      if ok {
        TensorCopied(p, from, to, old(dev.Bank(inputType)), old(dev.Bank(outputType)), dev.Bank(outputType));
      }
    }
  }

  /** What the copy element by element means for the elements. */
  lemma {:induction false} TensorCopied(
      p: Params, from: MemRef, to: MemRef, source: seq<Byte>, destination: seq<Byte>, after: seq<Byte>)
    requires |from.shape| == |from.strides| == |to.strides|
    requires var moves := ElementMoves(from.shape, from.strides, to.strides, ElementSize(from.element));
             && InRange(p, moves, |source|, |destination|) && OnlyTouched(p, moves, destination, after)
             && (Apart(p, moves) ==> after == Written(p, moves, source, destination))
    ensures forall size :: Holds(size, from.element.bits) ==>
              && (Distinct(from.shape, to.strides)
                  && (p.inputType == p.outputType ==>
                        TensorsApart(from.shape, from.strides, to.strides, p.inputAddress, p.outputAddress, size)) ==>
                    BitsCopied(from.shape, from.element.bits, from.strides, to.strides, p.inputAddress, p.outputAddress,
                               size, source, after))
              && |after| == |destination|
              && forall x :: 0 <= x < |destination| && !InTensor(from.shape, to.strides, p.outputAddress, size, x) ==>
                   after[x] == destination[x]
  {
    var size := ElementSize(from.element);
    assert forall s :: Holds(s, from.element.bits) ==> s == size;
    OtherBytesStay(p, from.shape, from.strides, to.strides, size, destination, after);
    if Distinct(from.shape, to.strides)
       && (p.inputType == p.outputType ==>
             TensorsApart(from.shape, from.strides, to.strides, p.inputAddress, p.outputAddress, size)) {
      if p.inputType == p.outputType { ApartInBytes(p, from.shape, from.strides, to.strides, size); }
      AllBitsCopied(p, from.shape, from.element.bits, from.strides, to.strides, size, source, destination);
    }
  }
}
