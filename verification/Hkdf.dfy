/** src/pqc_engine/hkdf.c and host_server/shamir_recovery.py: HKDF expansion, section 2.3 of
    RFC 5869, over an HMAC that is a parameter. The C routine sets its key once, before the
    loop; that every later initialisation re-arms it is assumed. */
module Hkdf {
  import opened Words

  const HASH := 32
  const MAX_OUTPUT := 8160      // what the RFC allows: 255 blocks
  const C_LIMIT := 8192         // what the C routine allows: 256 blocks

  /** key -> data -> digest */
  type Hmac = (seq<byte>, seq<byte>) -> seq<byte>

  ghost predicate Digests(hmac: Hmac) {
    forall key, data :: |hmac(key, data)| == HASH
  }

  // ----- the standard ----------------------------------------------------------------------

  /** T(i); T(0) is empty. The counter octet bounds i by 255. */
  function Block(hmac: Hmac, prk: seq<byte>, info: seq<byte>, i: nat): seq<byte>
    requires i <= 255
  {
    if i == 0 then [] else hmac(prk, Block(hmac, prk, info, i - 1) + info + [i])
  }

  /** T(1) | T(2) | ... | T(n). */
  function Blocks(hmac: Hmac, prk: seq<byte>, info: seq<byte>, n: nat): seq<byte>
    requires n <= 255
  {
    if n == 0 then [] else Blocks(hmac, prk, info, n - 1) + Block(hmac, prk, info, n)
  }

  function BlockCount(length: nat): nat {
    (length + HASH - 1) / HASH
  }

  /** OKM: the first octets of the blocks. */
  function Expand(hmac: Hmac, prk: seq<byte>, info: seq<byte>, length: nat): (okm: seq<byte>)
    requires Digests(hmac) && length <= MAX_OUTPUT
    ensures |okm| == length
  {
    SameBlocks(hmac, prk, info, BlockCount(length));
    WrappedLength(hmac, prk, info, BlockCount(length));
    Blocks(hmac, prk, info, BlockCount(length))[..length]
  }

  // ----- the same with an eight-bit counter --------------------------------------------------

  /** The i-th block when the counter is an octet that wraps. */
  function WrappedBlock(hmac: Hmac, prk: seq<byte>, info: seq<byte>, i: nat): seq<byte> {
    if i == 0 then [] else hmac(prk, WrappedBlock(hmac, prk, info, i - 1) + info + [i % 0x100])
  }

  function WrappedBlocks(hmac: Hmac, prk: seq<byte>, info: seq<byte>, n: nat): seq<byte> {
    if n == 0 then [] else WrappedBlocks(hmac, prk, info, n - 1) + WrappedBlock(hmac, prk, info, n)
  }

  lemma {:induction false} WrappedLength(hmac: Hmac, prk: seq<byte>, info: seq<byte>, n: nat)
    requires Digests(hmac)
    ensures |WrappedBlocks(hmac, prk, info, n)| == HASH * n
  {
    if n > 0 {
      WrappedLength(hmac, prk, info, n - 1);
    }
  }

  /** Up to block 255 the octet has not wrapped. */
  lemma {:induction false} SameBlocks(hmac: Hmac, prk: seq<byte>, info: seq<byte>, n: nat)
    requires n <= 255
    ensures WrappedBlock(hmac, prk, info, n) == Block(hmac, prk, info, n)
    ensures WrappedBlocks(hmac, prk, info, n) == Blocks(hmac, prk, info, n)
  {
    if n > 0 {
      SameBlocks(hmac, prk, info, n - 1);
    }
  }

  function ExpandWrapped(hmac: Hmac, prk: seq<byte>, info: seq<byte>, length: nat): (okm: seq<byte>)
    requires Digests(hmac)
    ensures |okm| == length
  {
    WrappedLength(hmac, prk, info, BlockCount(length));
    WrappedBlocks(hmac, prk, info, BlockCount(length))[..length]
  }

  /** More blocks only append. */
  lemma {:induction false} WrappedPrefix(hmac: Hmac, prk: seq<byte>, info: seq<byte>, m: nat, n: nat)
    requires m <= n
    ensures WrappedBlocks(hmac, prk, info, m) <= WrappedBlocks(hmac, prk, info, n)
    decreases n - m
  {
    if m < n {
      WrappedPrefix(hmac, prk, info, m, n - 1);
    }
  }

  /** The first octets of any sufficient number of blocks are the output. */
  lemma WrappedIs(hmac: Hmac, prk: seq<byte>, info: seq<byte>, length: nat, n: nat)
    requires Digests(hmac) && length <= HASH * n
    ensures |WrappedBlocks(hmac, prk, info, n)| == HASH * n
    ensures ExpandWrapped(hmac, prk, info, length) == WrappedBlocks(hmac, prk, info, n)[..length]
  {
    WrappedLength(hmac, prk, info, n);
    WrappedLength(hmac, prk, info, BlockCount(length));
    WrappedPrefix(hmac, prk, info, BlockCount(length), n);
  }

  /** A shorter output is a prefix of a longer one, at every length. */
  lemma WrappedOutputs(hmac: Hmac, prk: seq<byte>, info: seq<byte>, m: nat, n: nat)
    requires Digests(hmac) && m <= n
    ensures ExpandWrapped(hmac, prk, info, m) == ExpandWrapped(hmac, prk, info, n)[..m]
  {
    hide WrappedBlocks;
    WrappedIs(hmac, prk, info, m, BlockCount(n));
    WrappedIs(hmac, prk, info, n, BlockCount(n));
  }

  /** Within the standard's range the wrapping counter makes no difference. */
  lemma WrappedIsStandard(hmac: Hmac, prk: seq<byte>, info: seq<byte>, length: nat)
    requires Digests(hmac) && length <= MAX_OUTPUT
    ensures ExpandWrapped(hmac, prk, info, length) == Expand(hmac, prk, info, length)
  {
    SameBlocks(hmac, prk, info, BlockCount(length));
  }

  lemma ExpandPrefix(hmac: Hmac, prk: seq<byte>, info: seq<byte>, m: nat, n: nat)
    requires Digests(hmac) && m <= n <= MAX_OUTPUT
    ensures Expand(hmac, prk, info, m) == Expand(hmac, prk, info, n)[..m]
  {
    hide Expand, ExpandWrapped;
    WrappedIsStandard(hmac, prk, info, m);
    WrappedIsStandard(hmac, prk, info, n);
    WrappedOutputs(hmac, prk, info, m, n);
  }

  /** Beyond 8160 octets: first the longest standard output, then a block with counter zero. */
  lemma BeyondStandard(hmac: Hmac, prk: seq<byte>, info: seq<byte>, length: nat)
    requires Digests(hmac) && MAX_OUTPUT < length <= C_LIMIT
    ensures ExpandWrapped(hmac, prk, info, length)
         == Expand(hmac, prk, info, MAX_OUTPUT)
            + hmac(prk, Block(hmac, prk, info, 255) + info + [0])[..length - MAX_OUTPUT]
  {
    NextOutput(hmac, prk, info, MAX_OUTPUT, 256, length - MAX_OUTPUT);
    WrappedIsStandard(hmac, prk, info, MAX_OUTPUT);
    SameBlocks(hmac, prk, info, 255);
    WrappedNext(hmac, prk, info, 256);
  }

  // ----- the output, block by block ---------------------------------------------------------

  /** The i-th run of 32 octets, the last one possibly short, is the HMAC of the run before it,
      the info and the octet i mod 256. */
  lemma OutputChains(hmac: Hmac, prk: seq<byte>, info: seq<byte>, length: nat, i: nat)
    requires Digests(hmac) && 1 <= i && HASH * (i - 1) < length
    ensures var okm := ExpandWrapped(hmac, prk, info, length);
      var end := if HASH * i <= length then HASH * i else length;
      && |okm| == length
      && okm[HASH * (i - 1)..end] == hmac(prk, (if i == 1 then [] else okm[HASH * (i - 2)..HASH * (i - 1)]) + info + [i % 0x100])[..end - HASH * (i - 1)]
  {
    var okm := ExpandWrapped(hmac, prk, info, length);
    var end := if HASH * i <= length then HASH * i else length;
    hide ExpandWrapped;
    OutputBlock(hmac, prk, info, length, i, end);
    WrappedNext(hmac, prk, info, i);
    if i > 1 {
      OutputBlock(hmac, prk, info, length, i - 1, HASH * (i - 1));
      assert okm[HASH * (i - 2)..HASH * (i - 1)] == WrappedBlock(hmac, prk, info, i - 1);
    } else {
      NoOutput(hmac, prk, info);
    }
  }

  lemma OutputBlock(hmac: Hmac, prk: seq<byte>, info: seq<byte>, length: nat, i: nat, end: nat)
    requires Digests(hmac) && 1 <= i && HASH * (i - 1) <= end <= HASH * i && end <= length
    ensures |WrappedBlock(hmac, prk, info, i)| == HASH
    ensures ExpandWrapped(hmac, prk, info, length)[HASH * (i - 1)..end]
         == WrappedBlock(hmac, prk, info, i)[..end - HASH * (i - 1)]
  {
    hide ExpandWrapped, WrappedBlock;
    var out := HASH * (i - 1);
    NextOutput(hmac, prk, info, out, i, end - out);
    WrappedOutputs(hmac, prk, info, end, length);
    assert ExpandWrapped(hmac, prk, info, length)[out..end] == ExpandWrapped(hmac, prk, info, end)[out..];
  }

  // ----- the two routines ------------------------------------------------------------------------

  /** The inner loop: the first octets of a block go to the output. */
  method StoreBlock(okm: array<byte>, okmLen: nat, out: nat, t: seq<byte>, chunk: nat)
    requires chunk <= |t| && out + chunk <= okmLen <= okm.Length
    modifies okm
    ensures okm[..out + chunk] == old(okm[..out]) + t[..chunk]
    ensures okm[okmLen..] == old(okm[okmLen..])
  {
    var i := 0;
    while i < chunk
      invariant 0 <= i <= chunk
      invariant okm[..out + i] == old(okm[..out]) + t[..i]
      invariant okm[okmLen..] == old(okm[okmLen..])
    {
      okm[out + i] := t[i];
      i := i + 1;
    }
  }

  /** What the C routine answers. */
  function ResultC(hmac: Hmac, prk: seq<byte>, info: seq<byte>, length: nat): Result<seq<byte>, ()>
    requires Digests(hmac)
  {
    if |prk| != HASH || length > C_LIMIT then Err(()) else Ok(ExpandWrapped(hmac, prk, info, length))
  }

  /** What the Python routine answers. */
  function ResultPython(hmac: Hmac, prk: seq<byte>, info: seq<byte>, length: nat): Result<seq<byte>, ()>
    requires Digests(hmac)
  {
    if length > MAX_OUTPUT then Err(()) else Ok(Expand(hmac, prk, info, length))
  }

  /** The C loop: out, remaining and an 8-bit counter advance together, block by block. */
  method FillBlocks(hmac: Hmac, prk: seq<byte>, info: seq<byte>, okm: array<byte>, okmLen: nat)
    requires Digests(hmac) && okmLen <= okm.Length
    modifies okm
    ensures okm[..okmLen] == ExpandWrapped(hmac, prk, info, okmLen)
    ensures okm[okmLen..] == old(okm[okmLen..])
  {
    hide ExpandWrapped, WrappedBlock, WrappedBlocks, Digests;
    NoOutput(hmac, prk, info);
    ghost var tail := okm[okmLen..];
    var t: seq<byte> := [];
    var ctr: byte := 1;
    var out, remaining := 0, okmLen;
    ghost var n := 0;     // blocks computed
    while remaining > 0
      invariant 0 <= remaining && out + remaining == okmLen
      invariant remaining > 0 ==> out == HASH * n
      invariant ctr == (n + 1) % 0x100 && t == WrappedBlock(hmac, prk, info, n)
      invariant okm[..out] == ExpandWrapped(hmac, prk, info, out)
      invariant okm[okmLen..] == tail
    {
      WrappedNext(hmac, prk, info, n + 1);
      t := hmac(prk, t + info + [ctr]);
      n := n + 1;
      var chunk := if remaining < HASH then remaining else HASH;
      NextOutput(hmac, prk, info, out, n, chunk);
      StoreBlock(okm, okmLen, out, t, chunk);
      out := out + chunk;
      remaining := remaining - chunk;
      ctr := (ctr + 1) % 0x100;
    }
  }

  /** The argument checks, then the loop. */
  method ExpandC(hmac: Hmac, prk: seq<byte>, info: seq<byte>, okm: array<byte>, okmLen: nat) returns (ret: int)
    requires Digests(hmac) && okmLen <= okm.Length
    modifies okm
    ensures match ResultC(hmac, prk, info, okmLen)
            case Err(_) => ret == -1 && okm[..] == old(okm[..])
            case Ok(output) => ret == 0 && okm[..okmLen] == output && okm[okmLen..] == old(okm[okmLen..])
    ensures ret == if |prk| != 32 || okmLen > 8192 then -1 else 0
    ensures ret == -1 ==> okm[..] == old(okm[..])
    // each block is the HMAC of the one before it, the info and the wrapping counter
    ensures ret == 0 ==> forall i :: 1 <= i <= okmLen / 32 ==>
      okm[32 * (i - 1)..32 * i]
      == hmac(prk, (if i == 1 then [] else okm[32 * (i - 2)..32 * (i - 1)]) + info + [i % 0x100])
  {
    if |prk| != HASH {
      return -1;
    }
    if okmLen > C_LIMIT {
      return -1;
    }
    FillBlocks(hmac, prk, info, okm, okmLen);
    hide ExpandWrapped;
    forall i | 1 <= i <= okmLen / 32
      ensures okm[32 * (i - 1)..32 * i]
        == hmac(prk, (if i == 1 then [] else okm[32 * (i - 2)..32 * (i - 1)]) + info + [i % 0x100])
    {
      OutputChains(hmac, prk, info, okmLen, i);
      SlicesOfPrefix(okm[..], okmLen, 32 * (i - 1), 32 * i);
      if i > 1 {
        SlicesOfPrefix(okm[..], okmLen, 32 * (i - 2), 32 * (i - 1));
      }
    }
    ret := 0;
  }

  lemma SlicesOfPrefix(s: seq<byte>, n: nat, a: nat, b: nat)
    requires a <= b <= n <= |s|
    ensures s[..n][a..b] == s[a..b]
  {}

  lemma NoOutput(hmac: Hmac, prk: seq<byte>, info: seq<byte>)
    requires Digests(hmac)
    ensures ExpandWrapped(hmac, prk, info, 0) == [] && WrappedBlock(hmac, prk, info, 0) == []
  {}

  lemma WrappedNext(hmac: Hmac, prk: seq<byte>, info: seq<byte>, i: nat)
    requires 1 <= i
    ensures WrappedBlock(hmac, prk, info, i) == hmac(prk, WrappedBlock(hmac, prk, info, i - 1) + info + [i % 0x100])
  {}

  /** Whole blocks, then part of the next. */
  lemma NextOutput(hmac: Hmac, prk: seq<byte>, info: seq<byte>, out: nat, n: nat, chunk: nat)
    requires Digests(hmac) && 1 <= n && out == HASH * (n - 1) && chunk <= HASH
    ensures |WrappedBlock(hmac, prk, info, n)| == HASH
    ensures ExpandWrapped(hmac, prk, info, out) + WrappedBlock(hmac, prk, info, n)[..chunk]
         == ExpandWrapped(hmac, prk, info, out + chunk)
  {
    WrappedNext(hmac, prk, info, n);
    var before, block := WrappedBlocks(hmac, prk, info, n - 1), WrappedBlock(hmac, prk, info, n);
    assert WrappedBlocks(hmac, prk, info, n) == before + block;
    hide WrappedBlock, WrappedBlocks, ExpandWrapped;
    WrappedIs(hmac, prk, info, out, n - 1);
    WrappedIs(hmac, prk, info, out + chunk, n);
    PrefixOfSum(before, block, chunk);
  }

  lemma PrefixOfSum(a: seq<byte>, b: seq<byte>, chunk: nat)
    requires chunk <= |b|
    ensures a[..|a|] + b[..chunk] == (a + b)[..|a| + chunk]
  {}

  /** The Python loop appends whole blocks and cuts at the end; past 255 blocks the counter is
      no longer an octet and the call raises. */
  method ExpandPython(hmac: Hmac, prk: seq<byte>, info: seq<byte>, length: nat) returns (r: Result<seq<byte>, ()>)
    requires Digests(hmac)
    ensures r == ResultPython(hmac, prk, info, length)
  {
    var okm: seq<byte> := [];
    var t: seq<byte> := [];
    var ctr: int := 1;
    while |okm| < length
      invariant 1 <= ctr <= 256
      invariant t == Block(hmac, prk, info, ctr - 1)
      invariant okm == Blocks(hmac, prk, info, ctr - 1) && |okm| == HASH * (ctr - 1)
      decreases length - |okm|
    {
      if ctr > 0xFF {
        return Err(());
      }
      t := hmac(prk, t + info + [ctr]);
      okm := okm + t;
      ctr := ctr + 1;
    }
    SameBlocks(hmac, prk, info, ctr - 1);
    WrappedIs(hmac, prk, info, length, ctr - 1);
    WrappedIsStandard(hmac, prk, info, length);
    r := Ok(okm[..length]);
  }

  // ----- the two against the standard and each other --------------------------------------------

  /** Refusing is allowed; any output must be the standard's, which defines none past 8160. */
  ghost predicate Conforms(hmac: Hmac, prk: seq<byte>, info: seq<byte>, length: nat, r: Result<seq<byte>, ()>)
    requires Digests(hmac)
  {
    r.Ok? ==> length <= MAX_OUTPUT && r.value == Expand(hmac, prk, info, length)
  }

  /** With a 32-octet key the C routine conforms to the standard, and agrees with the Python one,
      at every length but 8161 to 8192. */
  lemma CLengths(hmac: Hmac, prk: seq<byte>, info: seq<byte>, length: nat)
    requires Digests(hmac) && |prk| == HASH
    ensures Conforms(hmac, prk, info, length, ResultC(hmac, prk, info, length)) <==>
              length <= MAX_OUTPUT || length > C_LIMIT
    ensures ResultC(hmac, prk, info, length) == ResultPython(hmac, prk, info, length) <==>
              length <= MAX_OUTPUT || length > C_LIMIT
  {
    hide Expand, ExpandWrapped;
    if length <= MAX_OUTPUT {
      WrappedIsStandard(hmac, prk, info, length);
    }
  }

  /** At 8161 the C routine answers where Python raises; the last octet comes from counter zero. */
  lemma CounterWraps(hmac: Hmac, prk: seq<byte>, info: seq<byte>)
    requires Digests(hmac) && |prk| == HASH
    ensures ResultPython(hmac, prk, info, 8161).Err?
    ensures ResultC(hmac, prk, info, 8161) ==
      Ok(Expand(hmac, prk, info, 8160) + [hmac(prk, Block(hmac, prk, info, 255) + info + [0])[0]])
  {
    hide Expand, ExpandWrapped, Block;
    BeyondStandard(hmac, prk, info, 8161);
    var digest := hmac(prk, Block(hmac, prk, info, 255) + info + [0]);
    assert digest[..1] == [digest[0]];
  }
}
