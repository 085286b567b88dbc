/** host_server/flower_server.py: cutting a model into chunks of big-endian 16-bit values,
    and reassembling it against the shapes of a reference. */
module Chunker {
  import opened Words
  import opened Field
  import opened Sequences

  /** An integer array: its shape, and its elements in row-major order. */
  datatype NdArray = NdArray(shape: seq<nat>, data: seq<int>)

  datatype ChunkError = NothingToConcatenate | ZeroDivision | BadChunkLength | BadReshape

  function Size(shape: seq<nat>): nat {
    if shape == [] then 1 else shape[0] * Size(shape[1..])
  }

  /** The size of a shape is the product of its dimensions. */
  lemma {:induction false} SizeIsProduct(shape: seq<nat>, n: nat)
    ensures Size([]) == 1 && Size(shape + [n]) == Size(shape) * n
  {
    if shape == [] {
      assert ([] + [n])[1..] == [] && [n][1..] == [];
      assert [] + [n] == [n];
    } else {
      SizeIsProduct(shape[1..], n);
      assert (shape + [n])[1..] == shape[1..] + [n];
      Regroup(shape[0], Size(shape[1..]), n);
    }
  }

  lemma Regroup(a: nat, b: nat, c: nat)
    ensures a * (b * c) == (a * b) * c
  {}

  ghost predicate WellShaped(model: seq<NdArray>) {
    forall i :: 0 <= i < |model| ==> |model[i].data| == Size(model[i].shape)
  }

  /** Conversion to int16 keeps the low sixteen bits. */
  function Narrow(v: int): int16 {
    (v + 0x8000) % 0x1_0000 - 0x8000
  }

  lemma NarrowExact(v: int)
    ensures Narrow(v) == v <==> -0x8000 <= v < 0x8000
  {}

  function NarrowAll(data: seq<int>): (r: seq<int16>)
    ensures |r| == |data|
  {
    seq(|data|, i requires 0 <= i < |data| => Narrow(data[i]))
  }

  function Concat(model: seq<NdArray>): seq<int> {
    if model == [] then [] else model[0].data + Concat(model[1..])
  }

  // ----- one chunk as bytes --------------------------------------------------------------

  function PackOne(v: int16): (b: seq<byte>)
    ensures |b| == 2
  {
    var u := if v < 0 then v + 0x1_0000 else v;
    [u / 0x100, u % 0x100]
  }

  function UnpackOne(hi: byte, lo: byte): int16 {
    var u := hi as int * 0x100 + lo as int;
    if u >= 0x8000 then u - 0x1_0000 else u
  }

  lemma UnpackPack(v: int16)
    ensures UnpackOne(PackOne(v)[0], PackOne(v)[1]) == v
  {}

  function Pack(values: seq<int16>): (b: seq<byte>)
    ensures |b| == 2 * |values|
  {
    if values == [] then [] else PackOne(values[0]) + Pack(values[1..])
  }

  function Unpack(b: seq<byte>): (values: seq<int16>)
    requires |b| % 2 == 0
    ensures |values| == |b| / 2
  {
    if b == [] then [] else [UnpackOne(b[0], b[1])] + Unpack(b[2..])
  }

  lemma {:induction false} UnpackInverts(values: seq<int16>)
    ensures Unpack(Pack(values)) == values
  {
    if values != [] {
      UnpackInverts(values[1..]);
      UnpackPack(values[0]);
      assert Pack(values)[2..] == Pack(values[1..]);
      assert Pack(values)[..2] == PackOne(values[0]);
    }
  }

  /** Two bytes a value, the high one first, in two's complement. */
  lemma {:induction false} PackAt(values: seq<int16>, j: nat)
    requires j < |values|
    ensures (0x100 * Pack(values)[2 * j] as int + Pack(values)[2 * j + 1] as int - values[j]) % 0x1_0000 == 0
  {
    if j > 0 {
      PackAt(values[1..], j - 1);
      assert Pack(values)[2..] == Pack(values[1..]);
      assert Pack(values)[2 * j] == Pack(values[1..])[2 * (j - 1)];
      assert Pack(values)[2 * j + 1] == Pack(values[1..])[2 * (j - 1) + 1];
    } else {
      assert Pack(values)[..2] == PackOne(values[0]);
    }
  }

  /** Element j of the m-th array comes after all elements of the arrays before it. */
  lemma {:induction false} ConcatAt(model: seq<NdArray>, m: nat, j: nat)
    requires m < |model| && j < |model[m].data|
    ensures |Concat(model[..m])| + j < |Concat(model)|
    ensures Concat(model)[|Concat(model[..m])| + j] == model[m].data[j]
  {
    if m > 0 {
      ConcatAt(model[1..], m - 1, j);
      assert model[..m][1..] == model[1..][..m - 1];
    } else {
      assert model[..0] == [];
    }
  }

  // ----- the chunks of a flat model --------------------------------------------------------

  function ChunkCount(total: nat, size: nat): nat
    requires size > 0
  {
    (total + size - 1) / size
  }

  function Zeros(n: nat): (z: seq<int16>)
    ensures |z| == n
  {
    seq(n, _ => 0)
  }

  /** The flat model, padded with zeros to whole chunks. */
  function Padded(flat: seq<int16>, size: nat): (p: seq<int16>)
    requires size > 0
    ensures |p| == ChunkCount(|flat|, size) * size && flat <= p
  {
    CountCovers(|flat|, size);
    flat + Zeros(ChunkCount(|flat|, size) * size - |flat|)
  }

  lemma CountCovers(total: nat, size: nat)
    requires size > 0
    ensures total <= ChunkCount(total, size) * size < total + size
    ensures forall i :: 0 <= i < ChunkCount(total, size) ==> Scaled(i, size) < total
  {
    var q := ChunkCount(total, size);
    assert total + size - 1 == q * size + (total + size - 1) % size;
    forall i | 0 <= i < q
      ensures Scaled(i, size) < total
    {
      MulMono(i, q - 1, size, size);
      assert (q - 1) * size == q * size - size;
    }
  }

  function Scaled(i: nat, size: nat): nat {
    i * size
  }

  /** Chunk i of a padded model. */
  function ChunkAt(padded: seq<int16>, size: nat, i: nat): (c: seq<int16>)
    requires Scaled(i, size) + size <= |padded|
    ensures |c| == size
  {
    padded[Scaled(i, size)..Scaled(i, size) + size]
  }

  /** The dictionary produced for a flat model: chunk i holds its i-th run of values. */
  ghost predicate ChunksOf(chunks: map<nat, seq<byte>>, flat: seq<int16>, size: nat, n: nat)
    requires size > 0
  {
    && n <= ChunkCount(|flat|, size)
    && (forall i: nat :: i in chunks <==> i < n)
    && forall i :: 0 <= i < n ==>
      Scaled(i, size) + size <= |Padded(flat, size)| && chunks[i] == Pack(ChunkAt(Padded(flat, size), size, i))
  }

  lemma ChunkInside(i: nat, n: nat, size: nat)
    requires i < n
    ensures Scaled(i, size) + size <= n * size
    ensures Scaled(i + 1, size) == Scaled(i, size) + size
  {
    MulMono(i + 1, n, size, size);
  }

  lemma NoChunksYet(flat: seq<int16>, size: nat)
    requires size > 0
    ensures ChunksOf(map[], flat, size, 0)
  {
    hide ChunkCount, Padded;
  }

  lemma OneMoreChunk(chunks: map<nat, seq<byte>>, flat: seq<int16>, size: nat, i: nat)
    requires size > 0 && i < ChunkCount(|flat|, size) && ChunksOf(chunks, flat, size, i)
    requires Scaled(i, size) + size <= |Padded(flat, size)|
    ensures ChunksOf(chunks[i := Pack(ChunkAt(Padded(flat, size), size, i))], flat, size, i + 1)
  {
    hide ChunkCount, Padded, Pack, Scaled, ChunkAt;
  }

  /** One slice of the flat model, filled up with zeros if it is the short last one. */
  method CutChunk(flat: seq<int16>, size: nat, i: nat) returns (data: seq<int16>)
    requires size > 0 && i < ChunkCount(|flat|, size)
    requires Scaled(i, size) < |flat| && Scaled(i, size) + size <= |Padded(flat, size)|
    ensures data == ChunkAt(Padded(flat, size), size, i)
  {
    hide ChunkCount, Padded, ChunkAt;
    SliceOfPadded(flat, size, i);
    var start := i * size;
    var end := if start + size < |flat| then start + size else |flat|;
    data := flat[start..end];
    if |data| < size {
      data := data + Zeros(size - |data|);
    } else {
      assert data + Zeros(0) == data;
    }
  }

  /** What a cell of a chunk says, in bytes and elements: the low sixteen bits of the element it
      stands for, and zero past the end. */
  lemma CellOfChunk(chunks: map<nat, seq<byte>>, data: seq<int>, size: nat, i: nat, j: nat)
    requires size > 0 && ChunksOf(chunks, NarrowAll(data), size, ChunkCount(|data|, size))
    requires j < size
    ensures i in chunks <==> i * size < |data|
    ensures i in chunks ==>
      && |chunks[i]| == 2 * size
      && var word := 0x100 * chunks[i][2 * j] as int + chunks[i][2 * j + 1] as int;
         (word - if i * size + j < |data| then data[i * size + j] else 0) % 0x1_0000 == 0
  {
    var flat := NarrowAll(data);
    var p := Padded(flat, size);
    CountCovers(|data|, size);
    hide Pack, Narrow;
    if i in chunks {
      assert Scaled(i, size) == i * size;
      var c := ChunkAt(p, size, i);
      PackAt(c, j);
      hide ChunksOf;
      CellOfPadded(data, size, i * size + j);
      assert c[j] == p[i * size + j];
      SumOfMultiples(0x100 * Pack(c)[2 * j] as int + Pack(c)[2 * j + 1] as int, c[j],
                     if i * size + j < |data| then data[i * size + j] else 0);
    } else {
      CountReaches(|data|, size, i);
    }
  }

  lemma CountReaches(total: nat, size: nat, i: nat)
    requires size > 0 && i >= ChunkCount(total, size)
    ensures i * size >= total
  {
    CountCovers(total, size);
    MulMono(ChunkCount(total, size), i, size, size);
  }

  lemma CellOfPadded(data: seq<int>, size: nat, k: nat)
    requires size > 0 && k < |Padded(NarrowAll(data), size)|
    ensures (Padded(NarrowAll(data), size)[k] - if k < |data| then data[k] else 0) % 0x1_0000 == 0
  {
    if k < |data| {
      assert Padded(NarrowAll(data), size)[k] == Narrow(data[k]);
    }
  }

  lemma SumOfMultiples(a: int, b: int, c: int)
    requires (a - b) % 0x1_0000 == 0 && (b - c) % 0x1_0000 == 0
    ensures (a - c) % 0x1_0000 == 0
  {}

  method ModelToChunks(model: seq<NdArray>, size: nat) returns (r: Result<map<nat, seq<byte>>, ChunkError>)
    ensures model == [] ==> r == Err(NothingToConcatenate)
    ensures model != [] && size == 0 ==> r == Err(ZeroDivision)
    ensures model != [] && size > 0 ==>
      r.Ok? && ChunksOf(r.value, NarrowAll(Concat(model)), size, ChunkCount(|Concat(model)|, size))
  {
    if model == [] {
      return Err(NothingToConcatenate);
    }
    var flat := NarrowAll(Concat(model));
    var total := |flat|;
    if size == 0 {
      return Err(ZeroDivision);
    }
    var count := ChunkCount(total, size);
    CountCovers(total, size);
    var chunks: map<nat, seq<byte>> := map[];
    var i := 0;
    NoChunksYet(flat, size);
    hide Scaled, Padded, Pack, ChunksOf;
    while i < count
      invariant 0 <= i <= count
      invariant ChunksOf(chunks, flat, size, i)
    {
      SliceOfPadded(flat, size, i);
      var data := CutChunk(flat, size, i);
      OneMoreChunk(chunks, flat, size, i);
      chunks := chunks[i := Pack(data)];
      i := i + 1;
    }
    r := Ok(chunks);
  }

  /** A slice filled up with zeros is the chunk of the padded model. */
  lemma SliceOfPadded(flat: seq<int16>, size: nat, i: nat)
    requires size > 0 && i < ChunkCount(|flat|, size)
    ensures Scaled(i, size) < |flat| && Scaled(i, size) + size <= |Padded(flat, size)|
    ensures var start := Scaled(i, size);
      var end := if start + size < |flat| then start + size else |flat|;
      ChunkAt(Padded(flat, size), size, i) == flat[start..end] + Zeros(size - (end - start))
  {
    hide Scaled;
    CountCovers(|flat|, size);
    ChunkInside(i, ChunkCount(|flat|, size), size);
  }

  // ----- reassembly ---------------------------------------------------------------------------

  ghost predicate PlainChunks(chunks: map<nat, seq<byte>>, size: nat) {
    forall i :: i in chunks && i < |chunks| ==> |chunks[i]| == 2 * size
  }

  /** The values of the chunks present among the first n numbers, in order. */
  function Values(chunks: map<nat, seq<byte>>, size: nat, n: nat): seq<int16>
    requires forall i :: i in chunks && i < n ==> |chunks[i]| == 2 * size
  {
    if n == 0 then []
    else Values(chunks, size, n - 1) + if n - 1 in chunks then Unpack(chunks[n - 1]) else []
  }

  function TotalSize(refs: seq<NdArray>): nat {
    if refs == [] then 0 else Size(refs[0].shape) + TotalSize(refs[1..])
  }

  /** Consecutive runs of the flat values, shaped like the references. */
  function Shaped(flat: seq<int>, refs: seq<NdArray>): (m: seq<NdArray>)
    requires TotalSize(refs) <= |flat|
    ensures |m| == |refs|
  {
    if refs == [] then []
    else
      var n := Size(refs[0].shape);
      [NdArray(refs[0].shape, flat[..n])] + Shaped(flat[n..], refs[1..])
  }

  lemma ConsShaped(flat: seq<int>, refs: seq<NdArray>, k: nat, n: nat)
    requires 0 < k <= |refs| && n == Size(refs[0].shape) <= |flat|
    requires TotalSize(refs[1..][..k - 1]) <= |flat| - n
    ensures TotalSize(refs[..k]) <= |flat|
    ensures Shaped(flat, refs[..k]) == [NdArray(refs[0].shape, flat[..n])] + Shaped(flat[n..], refs[1..][..k - 1])
  {
    hide Size;
    assert refs[..k][1..] == refs[1..][..k - 1];
  }

  lemma {:induction false} ShapedAppend(flat: seq<int>, refs: seq<NdArray>, k: nat)
    requires k < |refs| && TotalSize(refs) <= |flat|
    ensures TotalSize(refs[..k]) + Size(refs[k].shape) == TotalSize(refs[..k + 1]) <= TotalSize(refs)
    ensures Shaped(flat, refs[..k + 1])
         == Shaped(flat, refs[..k]) + [NdArray(refs[k].shape, flat[TotalSize(refs[..k])..TotalSize(refs[..k + 1])])]
  {
    hide Size;
    var n := Size(refs[0].shape);
    if k > 0 {
      var rest, tail := refs[1..], flat[n..];
      ShapedAppend(tail, rest, k - 1);
      var a, b := TotalSize(rest[..k - 1]), TotalSize(rest[..k]);
      SliceOfSuffix(flat, n, a, b);
      ConsShaped(flat, refs, k, n);
      ConsShaped(flat, refs, k + 1, n);
      ConsTotal(refs, k);
      ConsTotal(refs, k + 1);
      hide Shaped, TotalSize;
      Associative([NdArray(refs[0].shape, flat[..n])], Shaped(tail, rest[..k - 1]), [NdArray(rest[k - 1].shape, tail[a..b])]);
    } else {
      ShapedFirst(flat, refs);
    }
  }

  lemma ShapedFirst(flat: seq<int>, refs: seq<NdArray>)
    requires refs != [] && TotalSize(refs) <= |flat|
    ensures TotalSize(refs[..0]) == 0 && TotalSize(refs[..1]) == Size(refs[0].shape) <= TotalSize(refs)
    ensures Shaped(flat, refs[..0]) == []
    ensures Shaped(flat, refs[..1]) == [NdArray(refs[0].shape, flat[0..Size(refs[0].shape)])]
  {
    hide Size;
    assert refs[..1][1..] == [] && refs[..0] == [];
  }

  lemma SliceOfSuffix<T>(s: seq<T>, n: nat, a: nat, b: nat)
    requires n <= |s| && a <= b <= |s| - n
    ensures s[n..][a..b] == s[n + a..n + b]
  {}

  lemma ConsTotal(refs: seq<NdArray>, k: nat)
    requires 0 < k <= |refs|
    ensures TotalSize(refs[..k]) == Size(refs[0].shape) + TotalSize(refs[1..][..k - 1])
  {
    hide Size;
    assert refs[..k][1..] == refs[1..][..k - 1];
  }

  lemma {:induction false} TotalSizeSplit(refs: seq<NdArray>, k: nat)
    requires k <= |refs|
    ensures TotalSize(refs) == TotalSize(refs[..k]) + TotalSize(refs[k..])
  {
    if k == 0 {
      assert refs[0..] == refs;
    } else {
      TotalSizeSplit(refs[1..], k - 1);
      assert refs[..k][1..] == refs[1..][..k - 1] && refs[k..] == refs[1..][k - 1..];
    }
  }

  method ChunksToModel(chunks: map<nat, seq<byte>>, size: nat,
                      refs: seq<NdArray>) returns (r: Result<seq<NdArray>, ChunkError>)
    ensures !PlainChunks(chunks, size) ==> r == Err(BadChunkLength)
    ensures r == Err(BadChunkLength) <==> exists i :: i in chunks && i < |chunks| && |chunks[i]| != 2 * size
    ensures PlainChunks(chunks, size) ==>
      if TotalSize(refs) > |Values(chunks, size, |chunks|)| then r == Err(BadReshape)
      else r == Ok(Shaped(Values(chunks, size, |chunks|), refs))
  {
    var flat: seq<int16> := [];
    var i := 0;
    while i < |chunks|
      invariant 0 <= i <= |chunks|
      invariant forall k :: k in chunks && k < i ==> |chunks[k]| == 2 * size
      invariant flat == Values(chunks, size, i)
    {
      if i in chunks {
        if |chunks[i]| != 2 * size {
          return Err(BadChunkLength);
        }
        flat := flat + Unpack(chunks[i]);
      }
      i := i + 1;
    }
    r := Reshape(flat, refs);
  }

  /** The second loop: cut the flat values to the size of each reference in turn. */
  method Reshape(flat: seq<int16>, refs: seq<NdArray>) returns (r: Result<seq<NdArray>, ChunkError>)
    ensures if TotalSize(refs) > |flat| then r == Err(BadReshape) else r == Ok(Shaped(flat, refs))
  {
    var result: seq<NdArray> := [];
    var offset, k := 0, 0;
    while k < |refs|
      invariant 0 <= k <= |refs|
      invariant offset == TotalSize(refs[..k]) <= |flat|
      invariant TotalSize(refs) <= |flat| ==> result == Shaped(flat, refs[..k])
    {
      var n := Size(refs[k].shape);
      TotalSizeSplit(refs, k + 1);
      TotalSizeSplit(refs[..k + 1], k);
      assert refs[..k + 1][..k] == refs[..k] && refs[..k + 1][k..] == [refs[k]];
      assert TotalSize([refs[k]]) == n by { assert [refs[k]][1..] == []; }
      if offset + n > |flat| {
        return Err(BadReshape);
      }
      if TotalSize(refs) <= |flat| {
        ShapedAppend(flat, refs, k);
      }
      result := result + [NdArray(refs[k].shape, flat[offset..offset + n])];
      offset := offset + n;
      k := k + 1;
    }
    assert refs[..k] == refs;
    r := Ok(result);
  }

  /** Reassembly keeps the order of the values and leaves none out, up to what the references
      ask for. */
  lemma {:induction false} ShapedKeepsOrder(flat: seq<int>, refs: seq<NdArray>)
    requires TotalSize(refs) <= |flat|
    ensures Concat(Shaped(flat, refs)) == flat[..TotalSize(refs)]
    ensures forall m :: 0 <= m < |refs| ==>
      Shaped(flat, refs)[m].shape == refs[m].shape && |Shaped(flat, refs)[m].data| == Size(refs[m].shape)
  {
    if refs != [] {
      hide Size;
      var n := Size(refs[0].shape);
      var tail := Shaped(flat[n..], refs[1..]);
      ShapedKeepsOrder(flat[n..], refs[1..]);
      assert Shaped(flat, refs) == [NdArray(refs[0].shape, flat[..n])] + tail;
      ConcatCons(NdArray(refs[0].shape, flat[..n]), tail);
      TwoPrefixes(flat, n, TotalSize(refs[1..]));
      hide Shaped, Concat;
      assert forall m :: 1 <= m < |refs| ==> Shaped(flat, refs)[m] == tail[m - 1] && refs[m] == refs[1..][m - 1];
    }
  }

  lemma ConcatCons(a: NdArray, rest: seq<NdArray>)
    ensures Concat([a] + rest) == a.data + Concat(rest)
  {
    assert ([a] + rest)[1..] == rest;
  }

  lemma TwoPrefixes<T>(s: seq<T>, n: nat, m: nat)
    requires n + m <= |s|
    ensures s[..n] + s[n..][..m] == s[..n + m]
  {}

  /** The numbers below n that have a chunk. */
  function Present(chunks: map<nat, seq<byte>>, n: nat): (k: nat)
    ensures k <= n
  {
    if n == 0 then 0 else Present(chunks, n - 1) + if n - 1 in chunks then 1 else 0
  }

  /** Missing chunks leave no hole: a chunk's values follow those of the chunks present before
      it. */
  lemma {:induction false} ValuesOfPresent(chunks: map<nat, seq<byte>>, size: nat, n: nat, k: nat)
    requires forall i :: i in chunks && i < n ==> |chunks[i]| == 2 * size
    requires k < n && k in chunks
    ensures var from := Present(chunks, k) * size;
      from + size <= |Values(chunks, size, n)| && Values(chunks, size, n)[from..from + size] == Unpack(chunks[k])
  {
    hide Unpack;
    ValuesLength(chunks, size, k);
    if k < n - 1 {
      ValuesOfPresent(chunks, size, n - 1, k);
    }
  }

  lemma {:induction false} ValuesLength(chunks: map<nat, seq<byte>>, size: nat, n: nat)
    requires forall i :: i in chunks && i < n ==> |chunks[i]| == 2 * size
    ensures |Values(chunks, size, n)| == Present(chunks, n) * size
  {
    if n > 0 {
      hide Unpack;
      ValuesLength(chunks, size, n - 1);
      if n - 1 in chunks {
        OneMore(Present(chunks, n - 1), size);
      }
    }
  }

  lemma OneMore(k: nat, size: nat)
    ensures (k + 1) * size == k * size + size
  {}

  // ----- the round trip ----------------------------------------------------------------------

  lemma {:induction false} ValuesOfChunks(chunks: map<nat, seq<byte>>, flat: seq<int16>, size: nat, n: nat, k: nat)
    requires size > 0 && ChunksOf(chunks, flat, size, n) && k <= n
    ensures forall i :: i in chunks && i < k ==> |chunks[i]| == 2 * size
    ensures k * size <= |Padded(flat, size)|
    ensures Values(chunks, size, k) == Padded(flat, size)[..k * size]
  {
    var p := Padded(flat, size);
    if k > 0 {
      hide Padded, Pack, Unpack, Scaled;
      ValuesOfChunks(chunks, flat, size, n, k - 1);
      NextChunk(p, size, k, n);
      UnpackInverts(ChunkAt(p, size, k - 1));
    }
  }

  lemma NextChunk(p: seq<int16>, size: nat, k: nat, n: nat)
    requires 0 < k <= n && (k - 1) * size <= |p| && Scaled(k - 1, size) + size <= |p|
    ensures k * size <= |p|
    ensures p[..k * size] == p[..(k - 1) * size] + ChunkAt(p, size, k - 1)
  {
    ScaledNext(k, size);
  }

  lemma ScaledNext(k: nat, size: nat)
    requires 0 < k
    ensures k * size == Scaled(k - 1, size) + size && Scaled(k - 1, size) == (k - 1) * size
  {}

  function Below(n: nat): (s: set<nat>)
    ensures |s| == n && forall i: nat :: i in s <==> i < n
  {
    if n == 0 then {} else Below(n - 1) + {n - 1}
  }

  lemma DomainSize(chunks: map<nat, seq<byte>>, n: nat)
    requires forall i: nat :: i in chunks <==> i < n
    ensures |chunks| == n
  {
    assert chunks.Keys == Below(n);
  }

  /** The model with every element narrowed to 16 bits. */
  function Narrowed(model: seq<NdArray>): (m: seq<NdArray>)
    ensures |m| == |model|
  {
    seq(|model|, i requires 0 <= i < |model| => NdArray(model[i].shape, NarrowAll(model[i].data)))
  }

  lemma ConcatHead(model: seq<NdArray>, rest: seq<int16>)
    requires model != []
    ensures var flat, n := NarrowAll(Concat(model)) + rest, |model[0].data|;
      |flat| >= n && flat[..n] == NarrowAll(model[0].data) && flat[n..] == NarrowAll(Concat(model[1..])) + rest
    ensures |Concat(model)| == |model[0].data| + |Concat(model[1..])|
  {
    var head, tail := model[0].data, Concat(model[1..]);
    assert Concat(model) == head + tail;
    hide Concat;
    NarrowAppend(head, tail);
    Associative(NarrowAll(head), NarrowAll(tail), rest);
    SplitAt(NarrowAll(head), NarrowAll(tail) + rest);
  }

  lemma NarrowAppend(a: seq<int>, b: seq<int>)
    ensures NarrowAll(a + b) == NarrowAll(a) + NarrowAll(b)
  {
    hide Narrow;
  }

  lemma SplitAt<T>(a: seq<T>, b: seq<T>)
    ensures (a + b)[..|a|] == a && (a + b)[|a|..] == b
  {}

  /** Any padding after the elements of a model is left over by reassembly. */
  lemma {:induction false} ShapedConcat(model: seq<NdArray>, refs: seq<NdArray>, rest: seq<int16>)
    requires WellShaped(model) && |refs| == |model|
    requires forall i :: 0 <= i < |model| ==> refs[i].shape == model[i].shape
    ensures TotalSize(refs) == |Concat(model)|
    ensures Shaped(NarrowAll(Concat(model)) + rest, refs) == Narrowed(model)
  {
    if model != [] {
      hide Size, Narrow;
      var flat := NarrowAll(Concat(model)) + rest;
      var n := Size(refs[0].shape);
      ShapedConcat(model[1..], refs[1..], rest);
      ConcatHead(model, rest);
      hide NarrowAll, Concat;
      assert Narrowed(model) == [NdArray(model[0].shape, NarrowAll(model[0].data))] + Narrowed(model[1..]);
    }
  }

  ghost predicate Fits16(model: seq<NdArray>) {
    forall i, j :: 0 <= i < |model| && 0 <= j < |model[i].data| ==> -0x8000 <= model[i].data[j] < 0x8000
  }

  lemma NarrowedExact(model: seq<NdArray>)
    ensures Narrowed(model) == model <==> Fits16(model)
  {
    if Narrowed(model) == model {
      forall i, j | 0 <= i < |model| && 0 <= j < |model[i].data|
        ensures -0x8000 <= model[i].data[j] < 0x8000
      {
        assert Narrowed(model)[i].data[j] == model[i].data[j];
        NarrowExact(model[i].data[j]);
      }
    }
    if Fits16(model) {
      forall i | 0 <= i < |model|
        ensures Narrowed(model)[i] == model[i]
      {
        assert NarrowAll(model[i].data) == model[i].data;
      }
    }
  }

  /** Reassembling the chunks of a model against references of the same shapes succeeds and
      gives the model narrowed to 16 bits: the model itself exactly when its values fit. */
  lemma RoundTrip(model: seq<NdArray>, refs: seq<NdArray>, size: nat, chunks: map<nat, seq<byte>>)
    requires size > 0 && WellShaped(model) && |refs| == |model|
    requires forall i :: 0 <= i < |model| ==> refs[i].shape == model[i].shape
    requires ChunksOf(chunks, NarrowAll(Concat(model)), size, ChunkCount(|Concat(model)|, size))
    ensures PlainChunks(chunks, size) && TotalSize(refs) <= |Values(chunks, size, |chunks|)|
    ensures Shaped(Values(chunks, size, |chunks|), refs) == Narrowed(model)
    ensures Shaped(Values(chunks, size, |chunks|), refs) == model <==> Fits16(model)
  {
    var flat := NarrowAll(Concat(model));
    var n := ChunkCount(|flat|, size);
    DomainSize(chunks, n);
    ValuesOfChunks(chunks, flat, size, n, n);
    var p := Padded(flat, size);
    assert p[..n * size] == p;
    ShapedConcat(model, refs, p[|flat|..]);
    assert p == flat + p[|flat|..];
    NarrowedExact(model);
  }
}
