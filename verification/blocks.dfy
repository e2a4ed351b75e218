/**
 * The block loops of encode(byte[]) and decode(byte[]), over any block coder.
 * A message is cut into blocks: each block is a run of zeros with the next
 * symbols of the message copied over its start. The encoder threads a state
 * through its block coder (the coder with its generator cache); the decoder
 * maps each received block to the symbols it contributes.
 */
module Blocks {
  import opened Results
  import opened ReedSolomon

  function Min(a: int, b: int): int
  {
    if a < b then a else b
  }

  /** A block: size zeros, the first take symbols of rest copied over them. */
  function Chunk(rest: seq<nat>, take: nat, size: nat): (r: seq<nat>)
    requires take <= |rest| && take <= size
    ensures |r| == size
  {
    seq(size, i requires 0 <= i < size => if i < take then rest[i] else 0)
  }

  /**
   * The encoding loop from the block holding the start of rest, k message
   * symbols per block, blocks of size symbols: done when nothing is left,
   * otherwise the next block (EncodeFirst).
   */
  function EncodeLoop<S(!new)>(step: (S, seq<nat>) -> Result<(S, seq<nat>)>, s: S, rest: seq<nat>, k: int, size: int)
    : Result<(S, seq<nat>)>
    requires k > 0
    decreases |rest|, 2
  {
    if |rest| == 0 then Success((s, [])) else EncodeFirst(step, s, rest, k, size)
  }

  /**
   * The block holding the start of rest: a negative size fails the
   * allocation of the result, a block too short for its message symbols
   * fails the copy, and otherwise the block is cut and coded (EncodeThen).
   */
  function EncodeFirst<S(!new)>(step: (S, seq<nat>) -> Result<(S, seq<nat>)>, s: S, rest: seq<nat>, k: int, size: int)
    : Result<(S, seq<nat>)>
    requires k > 0 && |rest| > 0
    decreases |rest|, 1
  {
    if size < 0 then
      Failure(Overflow)
    else
      var take := Min(k, |rest|);
      if take > size then Failure(ArgumentError)
      else EncodeThen(step, s, Chunk(rest, take, size), rest[take..], k, size)
  }

  /** Codes block, then the blocks holding tail. */
  function EncodeThen<S(!new)>(step: (S, seq<nat>) -> Result<(S, seq<nat>)>, s: S, block: seq<nat>, tail: seq<nat>,
                               k: int, size: int): Result<(S, seq<nat>)>
    requires k > 0
    decreases |tail| + 1, 0
  {
    var enc :- step(s, block);
    var more :- EncodeLoop(step, enc.0, tail, k, size);
    Success((more.0, enc.1 + more.1))
  }

  /** The decoding loop from the block holding the start of rest, blocks of size symbols, decoded by d. */
  function DecodeLoop<D>(step: (D, seq<nat>) -> Result<seq<nat>>, d: D, rest: seq<nat>, size: int): Result<seq<nat>>
    requires size > 0
    decreases |rest|, 2
  {
    if |rest| == 0 then Success([]) else DecodeFirst(step, d, rest, size)
  }

  /** Cuts the block holding the start of rest (zero-filled past the end of the message) and decodes it. */
  function DecodeFirst<D>(step: (D, seq<nat>) -> Result<seq<nat>>, d: D, rest: seq<nat>, size: int): Result<seq<nat>>
    requires size > 0 && |rest| > 0
    decreases |rest|, 1
  {
    var take := Min(size, |rest|);
    DecodeThen(step, d, Chunk(rest, take, size), rest[take..], size)
  }

  /** Decodes block, then the blocks holding tail. */
  function DecodeThen<D>(step: (D, seq<nat>) -> Result<seq<nat>>, d: D, block: seq<nat>, tail: seq<nat>, size: int)
    : Result<seq<nat>>
    requires size > 0
    decreases |tail| + 1, 0
  {
    var out :- step(d, block);
    var more :- DecodeLoop(step, d, tail, size);
    Success(out + more)
  }

  /**
   * On states s with inv(o, s), a coded block of bytes has size bytes and the
   * next state is related to o by inv too.
   */
  ghost predicate EncoderShape<S(!new)>(step: (S, seq<nat>) -> Result<(S, seq<nat>)>, inv: (S, S) -> bool, o: S, size: int)
  {
    forall s, b {:trigger step(s, b)} :: inv(o, s) && |b| == size && Bytes(b) && step(s, b).Success? ==>
      && inv(o, step(s, b).value.0)
      && |step(s, b).value.1| == size
      && Bytes(step(s, b).value.1)
  }

  /** On states s with inv(o, s), a coded block of bytes starts with the block's first k symbols. */
  ghost predicate EncoderKeeps<S(!new)>(step: (S, seq<nat>) -> Result<(S, seq<nat>)>, inv: (S, S) -> bool, o: S, k: int,
                                       size: int)
  {
    forall s, b {:trigger step(s, b)} :: 0 <= k <= size && inv(o, s) && |b| == size && Bytes(b) && step(s, b).Success? ==>
      |step(s, b).value.1| == size && step(s, b).value.1[..k] == b[..k]
  }

  /** On states s with inv(o, s), the block coder fails on blocks of bytes exactly when bad, and keeps inv. */
  ghost predicate EncoderFails<S(!new)>(step: (S, seq<nat>) -> Result<(S, seq<nat>)>, inv: (S, S) -> bool, o: S, size: int,
                                       bad: bool)
  {
    forall s, b {:trigger step(s, b)} :: inv(o, s) && |b| == size && Bytes(b) ==>
      && (step(s, b).Failure? <==> bad)
      && (step(s, b).Success? ==> inv(o, step(s, b).value.0))
  }

  /** The block decoder d fails on blocks of bytes exactly when bad, and otherwise yields k symbols. */
  ghost predicate DecoderFails<D>(step: (D, seq<nat>) -> Result<seq<nat>>, d: D, size: int, k: int, bad: bool)
  {
    forall b {:trigger step(d, b)} :: |b| == size && Bytes(b) ==>
      && (step(d, b).Failure? <==> bad)
      && (step(d, b).Success? ==> |step(d, b).value| == k)
  }

  /** A coded block keeps the block's first k symbols, and the block decoder gives them back. */
  predicate Accepted<D>(dstep: (D, seq<nat>) -> Result<seq<nat>>, d: D, b: seq<nat>, out: seq<nat>, k: int, size: int)
  {
    && 0 <= k <= size == |b| == |out|
    && Bytes(out)
    && out[..k] == b[..k]
    && dstep(d, out) == Success(out[..k])
  }

  /** Coding block b from a state s with inv(o, s) keeps inv, and the decoder d accepts the coded block. */
  ghost predicate InvertsAt<S, D>(estep: (S, seq<nat>) -> Result<(S, seq<nat>)>, dstep: (D, seq<nat>) -> Result<seq<nat>>,
                                  inv: (S, S) -> bool, o: S, d: D, k: int, size: int, s: S, b: seq<nat>)
  {
    inv(o, s) && |b| == size && Bytes(b) && estep(s, b).Success? ==>
      inv(o, estep(s, b).value.0) && Accepted(dstep, d, b, estep(s, b).value.1, k, size)
  }

  /** Every block of bytes the encoder codes from a state related to o is accepted by the decoder d. */
  ghost predicate EncoderInverts<S(!new), D>(estep: (S, seq<nat>) -> Result<(S, seq<nat>)>,
                                             dstep: (D, seq<nat>) -> Result<seq<nat>>,
                                             inv: (S, S) -> bool, o: S, d: D, k: int, size: int)
  {
    forall s, b :: InvertsAt(estep, dstep, inv, o, d, k, size, s, b)
  }

  /** A whole chunk is its data followed by zeros. */
  lemma ChunkWhole(m: seq<nat>, n: nat)
    requires |m| <= n
    ensures Chunk(m, |m|, n)[..|m|] == m
    ensures forall i :: |m| <= i < n ==> Chunk(m, |m|, n)[i] == 0
  {
  }

  /** Copying bytes over zeros gives bytes. */
  lemma ChunkBytes(rest: seq<nat>, take: nat, size: nat)
    requires take <= |rest| && take <= size && Bytes(rest)
    ensures Bytes(Chunk(rest, take, size))
  {
  }

  lemma MulSucc(a: int, b: int, n: int)
    requires a == 1 + b
    ensures a * n == n + b * n
  {
  }

  /** The number of blocks of k symbols that n symbols fill, the last one possibly partly. */
  function NumBlocks(n: nat, k: int): nat
    requires k > 0
    decreases n
  {
    if n == 0 then 0 else 1 + NumBlocks(n - Min(k, n), k)
  }

  /** The count computed in encode(byte[]) and decode(byte[]) by division is the number of blocks. */
  lemma {:induction false} NumBlocksCount(n: nat, k: int)
    requires k > 0
    ensures NumBlocks(n, k) == BlockCount(n, k)
    decreases n
  {
    BlockCountStep(n, k);
    if n > 0 {
      NumBlocksCount(n - Min(k, n), k);
    }
  }

  /** The blocks hold all n symbols, and only the last one has room to spare. */
  lemma {:induction false} NumBlocksCovers(n: nat, k: int)
    requires k > 0
    ensures n <= NumBlocks(n, k) * k < n + k
    decreases n
  {
    if n > 0 {
      var tail := n - Min(k, n);
      NumBlocksCovers(tail, k);
      MulSucc(NumBlocks(n, k), NumBlocks(tail, k), k);
    }
  }

  /** The message zero-extended to a whole number of k-symbol blocks, as the decoder returns it. */
  function Padded(m: seq<nat>, k: int): (r: seq<nat>)
    requires k > 0
    ensures |m| <= |r| < |m| + k && |r| == NumBlocks(|m|, k) * k
    ensures r[..|m|] == m && forall i :: |m| <= i < |r| ==> r[i] == 0
    ensures Bytes(m) ==> Bytes(r)
  {
    NumBlocksCovers(|m|, k);
    Chunk(m, |m|, NumBlocks(|m|, k) * k)
  }

  /** Exactly j blocks of k symbols fill j blocks. */
  lemma {:induction false} NumBlocksMultiple(j: nat, k: int)
    requires k > 0
    ensures NumBlocks(j * k, k) == j
    decreases j
  {
    if j > 0 {
      MulSucc(j, j - 1, k);
      NumBlocksMultiple(j - 1, k);
    }
  }

  /** One block of size bytes followed by b blocks of them is 1 + b blocks of bytes. */
  lemma JoinShape(x: seq<nat>, y: seq<nat>, size: int, count: int, b: int)
    requires |x| == size && |y| == b * size && count == 1 + b
    requires Bytes(x) && Bytes(y)
    ensures |x + y| == count * size && Bytes(x + y)
  {
    MulSucc(count, b, size);
  }

  /**
   * Zero-extending a message to count whole blocks of k is its first block,
   * zero-extended to k, followed by the rest zero-extended to count - 1 blocks.
   */
  lemma ChunkJoin(m: seq<nat>, k: nat, take: nat, count: int)
    requires k > 0 && |m| > 0 && take == Min(k, |m|) && count >= 1
    requires |m| - take <= (count - 1) * k
    ensures |m| <= count * k
    ensures Chunk(m, take, k) + Chunk(m[take..], |m| - take, (count - 1) * k) == Chunk(m, |m|, count * k)
  {
    MulSucc(count, count - 1, k);
    var lhs := Chunk(m, take, k) + Chunk(m[take..], |m| - take, (count - 1) * k);
    forall i | 0 <= i < count * k
      ensures lhs[i] == Chunk(m, |m|, count * k)[i]
    {
      if i >= k {
        assert lhs[i] == Chunk(m[take..], |m| - take, (count - 1) * k)[i - k];
      }
    }
  }

  /** A non-empty message whose first block fits: the loop codes that block, then the rest. */
  lemma EncodeLoopNext<S(!new)>(step: (S, seq<nat>) -> Result<(S, seq<nat>)>, s: S, rest: seq<nat>, k: int, size: int)
    requires k > 0 && |rest| > 0 && 0 <= Min(k, |rest|) <= size
    ensures EncodeLoop(step, s, rest, k, size)
      == EncodeThen(step, s, Chunk(rest, Min(k, |rest|), size), rest[Min(k, |rest|)..], k, size)
  {
  }

  /** The encoding loop emits size bytes per block of k message symbols, and keeps inv. */
  lemma {:induction false} EncodeLoopShape<S(!new)>(step: (S, seq<nat>) -> Result<(S, seq<nat>)>, inv: (S, S) -> bool,
                                                    o: S, s: S, rest: seq<nat>, k: int, size: int)
    requires k > 0 && inv(o, s) && Bytes(rest) && EncoderShape(step, inv, o, size)
    requires EncodeLoop(step, s, rest, k, size).Success?
    ensures inv(o, EncodeLoop(step, s, rest, k, size).value.0)
    ensures |EncodeLoop(step, s, rest, k, size).value.1| == NumBlocks(|rest|, k) * size
    ensures Bytes(EncodeLoop(step, s, rest, k, size).value.1)
    decreases |rest|
  {
    if |rest| > 0 {
      var take := Min(k, |rest|);
      assert 0 <= take <= size;
      var block, tail := Chunk(rest, take, size), rest[take..];
      EncodeLoopNext(step, s, rest, k, size);
      ChunkBytes(rest, take, size);
      var enc := step(s, block).value;
      EncodeLoopShape(step, inv, o, enc.0, tail, k, size);
      JoinShape(enc.1, EncodeLoop(step, enc.0, tail, k, size).value.1, size,
        NumBlocks(|rest|, k), NumBlocks(|rest| - take, k));
    }
  }

  /** The first k symbols of every whole block of size symbols in out, in order. */
  function DataParts(out: seq<nat>, k: nat, size: int): (r: seq<nat>)
    requires k <= size
    decreases |out|
  {
    if size == 0 || |out| < size then [] else out[..k] + DataParts(out[size..], k, size)
  }

  /**
   * The coded blocks carry the message: the first k symbols of each of them,
   * in order, are the message zero-extended to whole blocks of k.
   */
  lemma {:induction false} EncodeLoopData<S(!new)>(step: (S, seq<nat>) -> Result<(S, seq<nat>)>, inv: (S, S) -> bool,
                                                   o: S, s: S, rest: seq<nat>, k: int, size: int)
    requires 0 < k <= size && inv(o, s) && Bytes(rest)
    requires EncoderShape(step, inv, o, size) && EncoderKeeps(step, inv, o, k, size)
    requires EncodeLoop(step, s, rest, k, size).Success?
    ensures DataParts(EncodeLoop(step, s, rest, k, size).value.1, k, size) == Padded(rest, k)
    decreases |rest|
  {
    if |rest| > 0 {
      var take := Min(k, |rest|);
      var block, tail := Chunk(rest, take, size), rest[take..];
      EncodeLoopNext(step, s, rest, k, size);
      ChunkBytes(rest, take, size);
      var enc := step(s, block).value;
      var more := EncodeLoop(step, enc.0, tail, k, size).value;
      EncodeLoopData(step, inv, o, enc.0, tail, k, size);
      var out := enc.1 + more.1;
      assert out == EncodeLoop(step, s, rest, k, size).value.1;
      assert out[..k] == enc.1[..k] && out[size..] == more.1;
      assert DataParts(out, k, size) == out[..k] + DataParts(more.1, k, size);
      assert block[..k] == Chunk(rest, take, k);
      ChunkJoin(rest, k, take, NumBlocks(|rest|, k));
    }
  }

  /**
   * The encoding loop fails exactly when there is a block and either the
   * block cannot hold its message symbols or the block coder fails; a
   * negative block size fails first.
   */
  lemma {:induction false} EncodeLoopFails<S(!new)>(step: (S, seq<nat>) -> Result<(S, seq<nat>)>, inv: (S, S) -> bool,
                                                    o: S, s: S, rest: seq<nat>, k: int, size: int, bad: bool)
    requires k > 0 && inv(o, s) && Bytes(rest) && EncoderFails(step, inv, o, size, bad)
    ensures EncodeLoop(step, s, rest, k, size).Failure? <==> |rest| > 0 && (size < Min(k, |rest|) || bad)
    ensures |rest| > 0 && size < 0 ==> EncodeLoop(step, s, rest, k, size) == Failure(Overflow)
    decreases |rest|
  {
    if |rest| > 0 && size >= Min(k, |rest|) {
      var take := Min(k, |rest|);
      var block, tail := Chunk(rest, take, size), rest[take..];
      EncodeLoopNext(step, s, rest, k, size);
      ChunkBytes(rest, take, size);
      var r := step(s, block);
      if r.Success? {
        EncodeLoopFails(step, inv, o, r.value.0, tail, k, size, bad);
        if |tail| > 0 {
          assert Min(k, |tail|) <= k <= size;
        }
      }
    }
  }

  /**
   * When every block too short for its k message symbols is also one the
   * block coder fails on, the loop fails exactly on a non-empty message.
   */
  lemma EncodeLoopBroken<S(!new)>(step: (S, seq<nat>) -> Result<(S, seq<nat>)>, inv: (S, S) -> bool, o: S, s: S,
                                   rest: seq<nat>, k: int, size: int, bad: bool)
    requires k > 0 && inv(o, s) && Bytes(rest) && EncoderFails(step, inv, o, size, bad) && (size <= k ==> bad)
    ensures EncodeLoop(step, s, rest, k, size).Failure? <==> |rest| > 0 && bad
    ensures |rest| > 0 && size < 0 ==> EncodeLoop(step, s, rest, k, size) == Failure(Overflow)
  {
    EncodeLoopFails(step, inv, o, s, rest, k, size, bad);
  }

  /** A non-empty received message: the loop decodes its first block, then the rest. */
  lemma DecodeLoopNext<D>(step: (D, seq<nat>) -> Result<seq<nat>>, d: D, rest: seq<nat>, size: int)
    requires size > 0 && |rest| > 0
    ensures DecodeLoop(step, d, rest, size)
      == DecodeThen(step, d, Chunk(rest, Min(size, |rest|), size), rest[Min(size, |rest|)..], size)
  {
  }

  /**
   * The decoding loop fails exactly when there is a block and the block
   * decoder fails, and otherwise yields k symbols per block.
   */
  lemma {:induction false} DecodeLoopFails<D>(step: (D, seq<nat>) -> Result<seq<nat>>, d: D, rest: seq<nat>, size: int,
                                              k: int, bad: bool)
    requires size > 0 && Bytes(rest) && DecoderFails(step, d, size, k, bad)
    ensures DecodeLoop(step, d, rest, size).Failure? <==> |rest| > 0 && bad
    ensures DecodeLoop(step, d, rest, size).Success? ==>
      |DecodeLoop(step, d, rest, size).value| == NumBlocks(|rest|, size) * k
    decreases |rest|
  {
    if |rest| > 0 {
      var take := Min(size, |rest|);
      DecodeLoopNext(step, d, rest, size);
      ChunkBytes(rest, take, size);
      DecodeLoopFails(step, d, rest[take..], size, k, bad);
      MulSucc(NumBlocks(|rest|, size), NumBlocks(|rest| - take, size), k);
    }
  }

  /** One block of the round trip: the decoder reads back the accepted block, then the rest. */
  lemma DecodeLoopCons<D>(dstep: (D, seq<nat>) -> Result<seq<nat>>, d: D, first: seq<nat>, tail: seq<nat>, size: int,
                          data: seq<nat>, decoded: seq<nat>)
    requires |first| == size > 0 && dstep(d, first) == Success(data)
    requires DecodeLoop(dstep, d, tail, size) == Success(decoded)
    ensures DecodeLoop(dstep, d, first + tail, size) == Success(data + decoded)
  {
    var out := first + tail;
    assert Chunk(out, size, size) == first;
    assert out[size..] == tail;
    DecodeLoopNext(dstep, d, out, size);
  }

  /**
   * Decoding what the encoding loop emitted gives back the message
   * zero-extended to whole blocks of k, when every coded block is accepted.
   */
  lemma {:induction false} LoopRoundTrip<S(!new), D>(estep: (S, seq<nat>) -> Result<(S, seq<nat>)>,
                                                     dstep: (D, seq<nat>) -> Result<seq<nat>>, inv: (S, S) -> bool,
                                                     o: S, d: D, s: S, rest: seq<nat>, k: int, size: int)
    requires 0 < k <= size && inv(o, s) && Bytes(rest) && EncoderInverts(estep, dstep, inv, o, d, k, size)
    requires EncodeLoop(estep, s, rest, k, size).Success?
    ensures DecodeLoop(dstep, d, EncodeLoop(estep, s, rest, k, size).value.1, size) == Success(Padded(rest, k))
    decreases |rest|
  {
    NumBlocksCovers(|rest|, k);
    if |rest| > 0 {
      var take := Min(k, |rest|);
      ChunkBytes(rest, take, size);
      var block, tail := Chunk(rest, take, size), rest[take..];
      assert InvertsAt(estep, dstep, inv, o, d, k, size, s, block);
      EncodeLoopNext(estep, s, rest, k, size);
      var enc := estep(s, block).value;
      LoopRoundTrip(estep, dstep, inv, o, d, enc.0, tail, k, size);
      var count := NumBlocks(|rest|, k);
      assert enc.1[..k] == Chunk(rest, take, k);
      DecodeLoopCons(dstep, d, enc.1, EncodeLoop(estep, enc.0, tail, k, size).value.1, size,
        Chunk(rest, take, k), Chunk(tail, |tail|, (count - 1) * k));
      ChunkJoin(rest, k, take, count);
    }
  }
}
