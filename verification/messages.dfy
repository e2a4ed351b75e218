/**
 * Whole messages: encode(byte[]) and decode(byte[]) of the coder, as the
 * block loops of Blocks run with the block encoder and the block decoder.
 */
module Messages {
  import opened Results
  import opened GaloisFieldPoly
  import opened ReedSolomon
  import opened Encoding
  import opened Decoding
  import opened Blocks

  /** The C# cast (byte)x on each symbol: an unchecked conversion keeps the low eight bits. */
  function ToBytes(s: seq<nat>): (r: seq<nat>)
    ensures |r| == |s| && Bytes(r)
  {
    seq(|s|, i requires 0 <= i < |s| => s[i] % 256)
  }

  /** Symbols that are bytes already pass the cast unchanged. */
  lemma ToBytesKeepsBytes(s: seq<nat>)
    requires Bytes(s)
    ensures ToBytes(s) == s
  {
  }

  /**
   * The block encoder as the encoding loop calls it. The loop only reaches
   * valid coders and blocks of bytes (EncodeStepFails), so the guard never
   * fails there; it makes the step a total function.
   */
  function EncodeStep(c: Coder, block: seq<nat>): Result<(Coder, seq<nat>)>
  {
    if CoderValid(c) && InField(c.field, block) then EncodeBlock(c, block) else Failure(ArgumentError)
  }

  /** The coders the encoding loop passes through from c: c with another valid generator cache. */
  predicate SameCoder(c: Coder, x: Coder)
  {
    x == c.(generators := x.generators) && CoderValid(x)
  }

  /** The length of one coded block: blockSize data symbols and ecSize check symbols. */
  function Span(c: Coder): int
  {
    c.blockSize + c.ecSize
  }

  /** The loop of encode(byte[]): blockSize message bytes per block of blockSize + ecSize symbols. */
  function EncodeBlocks(c: Coder, message: seq<nat>): Result<(Coder, seq<nat>)>
    requires CoderValid(c)
  {
    EncodeLoop(EncodeStep, c, message, c.blockSize, Span(c))
  }

  /** encode(byte[]): the encoded blocks cast to bytes, and the coder with its grown cache. */
  function Encode(c: Coder, message: seq<nat>): (r: Result<(Coder, seq<nat>)>)
    requires CoderValid(c) && Bytes(message)
    ensures r.Success? ==> Bytes(r.value.1)
  {
    var res :- EncodeBlocks(c, message);
    Success((res.0, ToBytes(res.1)))
  }

  /**
   * What one received block contributes to decode(byte[]): its first
   * blockSize symbols once the block decoder accepts (and corrects) it, the
   * error block when it rejects it.
   */
  function BlockOutput(c: Coder, block: seq<nat>): (r: Result<seq<nat>>)
    requires CoderValid(c) && InField(c.field, block) && |block| == c.blockSize + c.ecSize
  {
    var res :- DecodeBlock(c, block);
    Success(if res.Some? then res.value[..c.blockSize] else c.errorBlock)
  }

  /**
   * The block decoder as the decoding loop calls it. The loop only passes
   * blocks of bytes of the right length to a valid coder, so the guard never
   * fails there.
   */
  function DecodeStep(c: Coder, block: seq<nat>): Result<seq<nat>>
  {
    if CoderValid(c) && InField(c.field, block) && |block| == c.blockSize + c.ecSize then BlockOutput(c, block)
    else Failure(ArgumentError)
  }

  /** The loop of decode(byte[]): blockSize + ecSize symbols per block, blockSize of them kept. */
  function DecodeBlocks(c: Coder, message: seq<nat>): Result<seq<nat>>
    requires CoderValid(c) && c.blockSize + c.ecSize > 0
  {
    DecodeLoop(DecodeStep, c, message, Span(c))
  }

  /**
   * decode(byte[]): the block count divides by blockSize + ecSize (zero
   * throws), a negative count makes the result allocation throw, and a
   * negative block length makes the first block's allocation throw.
   */
  function Decode(c: Coder, message: seq<nat>): (r: Result<seq<nat>>)
    requires CoderValid(c) && Bytes(message)
    ensures r.Success? ==> Bytes(r.value)
  {
    var size := c.blockSize + c.ecSize;
    if size == 0 then
      Failure(DivideByZero)
    else
      var count := BlockCount(|message|, size);
      if count < 0 then Failure(Overflow)
      else if count == 0 then Success([])
      else if size < 0 then Failure(ArgumentError)
      else
        var out :- DecodeBlocks(c, message);
        Success(ToBytes(out))
  }

  /** The block encoder keeps the coder shape and emits blockSize + ecSize bytes per block. */
  lemma EncodeStepShape(c: Coder)
    requires CoderValid(c)
    ensures EncoderShape(EncodeStep, SameCoder, c, Span(c))
  {
    forall x: Coder, b: seq<nat> | SameCoder(c, x) && |b| == Span(c) && Bytes(b)
      && EncodeStep(x, b).Success?
      ensures SameCoder(c, EncodeStep(x, b).value.0)
      ensures |EncodeStep(x, b).value.1| == Span(c) && Bytes(EncodeStep(x, b).value.1)
    {
      EncodeBlockData(x, b);
      EncodeBlockCoder(x, b);
    }
  }

  /** A coded block of the coder's length starts with the block's first blockSize symbols. */
  lemma EncodeStepKeeps(c: Coder)
    requires CoderValid(c)
    ensures EncoderKeeps(EncodeStep, SameCoder, c, c.blockSize, Span(c))
  {
    forall x: Coder, b: seq<nat> | 0 <= c.blockSize <= Span(c) && SameCoder(c, x) && |b| == Span(c) && Bytes(b)
      && EncodeStep(x, b).Success?
      ensures |EncodeStep(x, b).value.1| == Span(c) && EncodeStep(x, b).value.1[..c.blockSize] == b[..c.blockSize]
    {
      EncodeBlockData(x, b);
    }
  }

  /**
   * The parity counts for which the block encoder throws, whatever the block:
   * none, or more generator roots than the exp table has entries past the base.
   */
  predicate EncoderBroken(c: Coder)
  {
    c.ecSize <= 0 || !(0 <= c.field.generatorBase && c.ecSize - 1 + c.field.generatorBase < c.field.size)
  }

  /** On a block of bytes of the coder's length, the block encoder fails exactly for a broken parity count. */
  lemma EncodeStepFails(c: Coder)
    requires CoderValid(c)
    ensures EncoderFails(EncodeStep, SameCoder, c, Span(c), EncoderBroken(c))
  {
    if c.ecSize > 0 {
      GeneratorShape(c.field, c.ecSize);
    }
    forall x: Coder, b: seq<nat> | SameCoder(c, x) && |b| == Span(c) && Bytes(b)
      ensures EncodeStep(x, b).Failure? <==> EncoderBroken(c)
      ensures EncodeStep(x, b).Success? ==> SameCoder(c, EncodeStep(x, b).value.0)
    {
      EncodeBlockFails(x, b);
      if EncodeBlock(x, b).Success? {
        EncodeBlockCoder(x, b);
      }
    }
  }

  /** The parity counts for which the block decoder throws, whatever the block. */
  predicate DecoderBroken(c: Coder)
  {
    c.ecSize < 0 || !(c.ecSize == 0 || (0 <= c.field.generatorBase && c.ecSize - 1 + c.field.generatorBase < c.field.size))
  }

  /** On a block of bytes of the coder's length, the block decoder fails exactly for a broken parity count. */
  lemma DecodeStepFails(c: Coder)
    requires CoderValid(c) && c.blockSize + c.ecSize > 0
    ensures DecoderFails(DecodeStep, c, Span(c), c.blockSize, DecoderBroken(c))
  {
    forall b: seq<nat> | |b| == Span(c) && Bytes(b)
      ensures DecodeStep(c, b).Failure? <==> DecoderBroken(c)
      ensures DecodeStep(c, b).Success? ==> |DecodeStep(c, b).value| == c.blockSize
    {
      DecodeBlockFails(c, b);
    }
  }

  /** A codeword of the coder's length is decoded to its first blockSize symbols. */
  lemma DecodeStepCodeword(d: Coder, out: seq<nat>)
    requires CoderValid(d) && Bytes(out) && |out| == d.blockSize + d.ecSize && d.ecSize >= 1
    requires 0 <= d.field.generatorBase && d.ecSize - 1 + d.field.generatorBase < d.field.size
    requires Codeword(d.field, d.ecSize, out)
    ensures DecodeStep(d, out) == Success(out[..d.blockSize])
  {
    DecodeCodeword(d, out);
  }

  /** A block the encoder codes is decoded to its first blockSize symbols by any coder with the same shape. */
  lemma EncodeBlockDecodes(x: Coder, d: Coder, b: seq<nat>)
    requires CoderValid(x) && CoderValid(d) && d.field == x.field && d.blockSize == x.blockSize && d.ecSize == x.ecSize
    requires InField(x.field, b) && |b| == x.blockSize + x.ecSize && EncodeBlock(x, b).Success?
    ensures DecodeStep(d, EncodeBlock(x, b).value.1) == Success(EncodeBlock(x, b).value.1[..x.blockSize])
  {
    EncodeBlockData(x, b);
    EncodeBlockCodeword(x, b);
    EncodeBlockFails(x, b);
    GeneratorShape(x.field, x.ecSize);
    DecodeStepCodeword(d, EncodeBlock(x, b).value.1);
  }

  /** One coded block: the block decoder of any coder with the same shape accepts it unchanged. */
  lemma EncodeStepAccepted(c: Coder, d: Coder, x: Coder, b: seq<nat>)
    requires CoderValid(d) && d.field == c.field && d.blockSize == c.blockSize && d.ecSize == c.ecSize
    requires SameCoder(c, x) && |b| == Span(c) && Bytes(b) && EncodeStep(x, b).Success?
    ensures SameCoder(c, EncodeStep(x, b).value.0)
    ensures Accepted(DecodeStep, d, b, EncodeStep(x, b).value.1, c.blockSize, Span(c))
  {
    assert x.field == c.field && x.blockSize == c.blockSize && x.ecSize == c.ecSize;
    assert EncodeStep(x, b) == EncodeBlock(x, b);
    var out := EncodeBlock(x, b).value.1;
    EncodeBlockData(x, b);
    EncodeBlockCoder(x, b);
    EncodeBlockDecodes(x, d, b);
  }

  /** Every block the encoder codes is accepted by the decoder of any coder with the same shape. */
  lemma EncodeStepInverts(c: Coder, d: Coder)
    requires CoderValid(c) && CoderValid(d)
    requires d.field == c.field && d.blockSize == c.blockSize && d.ecSize == c.ecSize
    ensures EncoderInverts(EncodeStep, DecodeStep, SameCoder, c, d, c.blockSize, Span(c))
  {
    forall x: Coder, b: seq<nat>
      ensures InvertsAt(EncodeStep, DecodeStep, SameCoder, c, d, c.blockSize, Span(c), x, b)
    {
      if SameCoder(c, x) && |b| == Span(c) && Bytes(b) && EncodeStep(x, b).Success? {
        EncodeStepAccepted(c, d, x, b);
      }
    }
  }

  /**
   * encode(byte[]) returns blockSize + ecSize bytes for each block of
   * blockSize message bytes, each coded block starting with its slice of the
   * message (zero-filled past the end), and the coder it leaves is the same
   * coder with a valid, grown generator cache. Without parity symbols only
   * the empty message encodes, to nothing.
   */
  lemma EncodeShape(c: Coder, message: seq<nat>)
    requires CoderValid(c) && Bytes(message) && Encode(c, message).Success?
    ensures |Encode(c, message).value.1| == BlockCount(|message|, c.blockSize) * (c.blockSize + c.ecSize)
    ensures Encode(c, message).value.0 == c.(generators := Encode(c, message).value.0.generators)
    ensures CoderValid(Encode(c, message).value.0)
    ensures c.ecSize > 0 ==>
      DataParts(Encode(c, message).value.1, c.blockSize, c.blockSize + c.ecSize) == Padded(message, c.blockSize)
    ensures c.ecSize <= 0 ==> message == [] && Encode(c, message).value.1 == []
  {
    EncodeStepShape(c);
    EncodeLoopShape(EncodeStep, SameCoder, c, c, message, c.blockSize, Span(c));
    NumBlocksCount(|message|, c.blockSize);
    EncodeData(c, message);
  }

  /** The data half of EncodeShape, through the block loop. */
  lemma EncodeData(c: Coder, message: seq<nat>)
    requires CoderValid(c) && Bytes(message) && Encode(c, message).Success?
    ensures c.ecSize > 0 ==>
      DataParts(Encode(c, message).value.1, c.blockSize, c.blockSize + c.ecSize) == Padded(message, c.blockSize)
    ensures c.ecSize <= 0 ==> message == [] && Encode(c, message).value.1 == []
  {
    EncodeFails(c, message);
    if c.ecSize > 0 {
      EncodeIsLoop(c, message);
      EncodeIsBlocks(c, message);
      EncodeStepShape(c);
      EncodeStepKeeps(c);
      EncodeLoopData(EncodeStep, SameCoder, c, c, message, c.blockSize, Span(c));
    } else {
      EncodeEmpty(c);
    }
  }

  /**
   * encode(byte[]) throws exactly when the message is not empty and either
   * the parity count is not positive or the generator's roots run past the
   * exp table; with a negative block length it is the allocation that throws.
   */
  lemma EncodeFails(c: Coder, message: seq<nat>)
    requires CoderValid(c) && Bytes(message)
    ensures Encode(c, message).Failure? <==> |message| > 0 && EncoderBroken(c)
    ensures |message| > 0 && c.blockSize + c.ecSize < 0 ==> Encode(c, message) == Failure(Overflow)
  {
    EncodeIsLoop(c, message);
    EncodeLoopBrokenAt(c, message);
  }

  /** encode(byte[]) fails exactly when its block loop does, and with the same error. */
  lemma EncodeIsLoop(c: Coder, message: seq<nat>)
    requires CoderValid(c) && Bytes(message)
    ensures Encode(c, message).Failure? == EncodeBlocks(c, message).Failure?
    ensures EncodeBlocks(c, message).Failure? ==> Encode(c, message) == Failure(EncodeBlocks(c, message).error)
  {
  }

  /** The block loop of encode(byte[]) fails exactly on a non-empty message with a broken parity count. */
  lemma EncodeLoopBrokenAt(c: Coder, message: seq<nat>)
    requires CoderValid(c) && Bytes(message)
    ensures EncodeBlocks(c, message).Failure? <==> |message| > 0 && EncoderBroken(c)
    ensures |message| > 0 && c.blockSize + c.ecSize < 0 ==> EncodeBlocks(c, message) == Failure(Overflow)
  {
    EncodeStepFails(c);
    EncodeLoopBroken(EncodeStep, SameCoder, c, c, message, c.blockSize, Span(c), EncoderBroken(c));
  }

  /**
   * decode(byte[]) with a positive block length throws exactly when there is
   * a block and the block decoder throws, and returns blockSize bytes per
   * received block; a zero block length throws on the division, and a
   * negative one throws whenever the truncated count is not zero.
   */
  lemma DecodeFails(c: Coder, message: seq<nat>)
    requires CoderValid(c) && Bytes(message)
    ensures c.blockSize + c.ecSize == 0 ==> Decode(c, message) == Failure(DivideByZero)
    ensures c.blockSize + c.ecSize < 0 ==>
      (Decode(c, message).Failure? <==> BlockCount(|message|, c.blockSize + c.ecSize) != 0)
    ensures c.blockSize + c.ecSize > 0 ==>
      (Decode(c, message).Failure? <==> |message| > 0 && DecoderBroken(c))
    ensures c.blockSize + c.ecSize > 0 && Decode(c, message).Success? ==>
      |Decode(c, message).value| == BlockCount(|message|, c.blockSize + c.ecSize) * c.blockSize
  {
    if Span(c) > 0 {
      NumBlocksCount(|message|, Span(c));
      DecodeIsLoop(c, message);
      DecodeLoopFailsAt(c, message);
    }
  }

  /** With a positive block length, decode(byte[]) is its block loop with the symbols cast to bytes. */
  lemma DecodeIsLoop(c: Coder, message: seq<nat>)
    requires CoderValid(c) && Bytes(message) && c.blockSize + c.ecSize > 0
    ensures Decode(c, message).Failure? == DecodeBlocks(c, message).Failure?
    ensures Decode(c, message).Success? ==> Decode(c, message).value == ToBytes(DecodeBlocks(c, message).value)
  {
    if |message| == 0 {
      DecodeEmpty(c);
      assert message == [] && DecodeBlocks(c, message) == Success([]);
    } else {
      DecodeMany(c, message);
    }
  }

  /** A non-empty message has a positive block count, so decode(byte[]) runs its block loop. */
  lemma DecodeMany(c: Coder, message: seq<nat>)
    requires CoderValid(c) && Bytes(message) && c.blockSize + c.ecSize > 0 && |message| > 0
    ensures Decode(c, message) == (var out :- DecodeBlocks(c, message); Success(ToBytes(out)))
  {
    BlockCountStep(|message|, c.blockSize + c.ecSize);
  }

  /** The block loop of decode(byte[]) fails exactly on a non-empty message with a broken parity count. */
  lemma DecodeLoopFailsAt(c: Coder, message: seq<nat>)
    requires CoderValid(c) && Bytes(message) && Span(c) > 0
    ensures DecodeBlocks(c, message).Failure? <==> |message| > 0 && DecoderBroken(c)
    ensures DecodeBlocks(c, message).Success? ==>
      |DecodeBlocks(c, message).value| == NumBlocks(|message|, Span(c)) * c.blockSize
  {
    DecodeStepFails(c);
    DecodeLoopFails(DecodeStep, c, message, Span(c), c.blockSize, DecoderBroken(c));
  }

  /**
   * An empty message encodes to nothing; nothing decodes to nothing, except
   * that a zero block length makes decode(byte[]) divide by zero.
   */
  lemma DecodeEncodeEmpty(c: Coder, d: Coder)
    requires CoderValid(c) && CoderValid(d)
    ensures Encode(c, []) == Success((c, []))
    ensures d.blockSize + d.ecSize == 0 ==> Decode(d, []) == Failure(DivideByZero)
    ensures d.blockSize + d.ecSize != 0 ==> Decode(d, []) == Success([])
  {
    EncodeEmpty(c);
    DecodeEmpty(d);
  }

  /** The encoding loop has nothing to do on an empty message. */
  lemma EncodeEmpty(c: Coder)
    requires CoderValid(c)
    ensures Encode(c, []) == Success((c, []))
  {
  }

  /** An empty message has no blocks, unless the block length is zero. */
  lemma DecodeEmpty(d: Coder)
    requires CoderValid(d)
    ensures d.blockSize + d.ecSize == 0 ==> Decode(d, []) == Failure(DivideByZero)
    ensures d.blockSize + d.ecSize != 0 ==> Decode(d, []) == Success([])
  {
    if d.blockSize + d.ecSize != 0 {
      BlockCountZero(d.blockSize + d.ecSize);
    }
  }

  /** A message that encodes emits bytes already, so the cast to bytes leaves the blocks unchanged. */
  lemma EncodeIsBlocks(c: Coder, message: seq<nat>)
    requires CoderValid(c) && Bytes(message) && EncodeBlocks(c, message).Success?
    ensures Encode(c, message) == EncodeBlocks(c, message)
  {
    EncodeStepShape(c);
    EncodeLoopShape(EncodeStep, SameCoder, c, c, message, c.blockSize, Span(c));
    ToBytesKeepsBytes(EncodeBlocks(c, message).value.1);
  }

  /**
   * The block loops invert each other: decoding the coded blocks gives the
   * message zero-extended to whole blocks.
   */
  lemma BlocksRoundTrip(c: Coder, d: Coder, message: seq<nat>)
    requires CoderValid(c) && CoderValid(d) && Bytes(message)
    requires d.field == c.field && d.blockSize == c.blockSize && d.ecSize == c.ecSize && c.ecSize > 0
    requires EncodeBlocks(c, message).Success?
    ensures DecodeBlocks(d, EncodeBlocks(c, message).value.1) == Success(Padded(message, c.blockSize))
  {
    EncodeBlocksLoop(c, message);
    StepsRoundTrip(c, d, message);
    assert Span(d) == Span(c);
    DecodeBlocksLoop(d, EncodeBlocks(c, message).value.1);
  }

  /** BlocksRoundTrip over the loops themselves. */
  lemma {:induction false} StepsRoundTrip(c: Coder, d: Coder, message: seq<nat>)
    requires CoderValid(c) && CoderValid(d) && Bytes(message)
    requires d.field == c.field && d.blockSize == c.blockSize && d.ecSize == c.ecSize && c.ecSize > 0
    requires EncodeLoop(EncodeStep, c, message, c.blockSize, Span(c)).Success?
    ensures DecodeLoop(DecodeStep, d, EncodeLoop(EncodeStep, c, message, c.blockSize, Span(c)).value.1, Span(c))
      == Success(Padded(message, c.blockSize))
  {
    EncodeStepInverts(c, d);
    LoopRoundTrip(EncodeStep, DecodeStep, SameCoder, c, d, c, message, c.blockSize, Span(c));
  }

  /** EncodeBlocks is the encoding loop over the coder's own step and sizes. */
  lemma EncodeBlocksLoop(c: Coder, message: seq<nat>)
    requires CoderValid(c)
    ensures EncodeLoop(EncodeStep, c, message, c.blockSize, Span(c)) == EncodeBlocks(c, message)
  {
  }

  /** DecodeBlocks is the decoding loop over the coder's own step and block length. */
  lemma DecodeBlocksLoop(d: Coder, received: seq<nat>)
    requires CoderValid(d) && Span(d) > 0
    ensures DecodeLoop(DecodeStep, d, received, Span(d)) == DecodeBlocks(d, received)
  {
  }

  /**
   * The round trip of the program: decoding an encoded message with any
   * coder over the same field and block shape returns the message followed
   * by zeros up to a whole number of blocks; only a zero block length, which
   * encodes nothing but the empty message, makes the decoder throw instead.
   */
  lemma DecodeEncode(c: Coder, d: Coder, message: seq<nat>)
    requires CoderValid(c) && CoderValid(d) && Bytes(message)
    requires d.field == c.field && d.blockSize == c.blockSize && d.ecSize == c.ecSize
    requires Encode(c, message).Success?
    ensures c.blockSize + c.ecSize == 0 ==> Decode(d, Encode(c, message).value.1) == Failure(DivideByZero)
    ensures c.blockSize + c.ecSize != 0 ==>
      Decode(d, Encode(c, message).value.1) == Success(Padded(message, c.blockSize))
  {
    EncodeFails(c, message);
    if |message| == 0 {
      DecodeEncodeEmpty(c, d);
    } else {
      DecodeEncodeBlocks(c, d, message);
    }
  }

  /** The round trip of a non-empty message, which only encodes with a positive parity count. */
  lemma DecodeEncodeBlocks(c: Coder, d: Coder, message: seq<nat>)
    requires CoderValid(c) && CoderValid(d) && Bytes(message) && |message| > 0 && c.ecSize > 0
    requires d.field == c.field && d.blockSize == c.blockSize && d.ecSize == c.ecSize
    requires Encode(c, message).Success?
    ensures Decode(d, Encode(c, message).value.1) == Success(Padded(message, c.blockSize))
  {
    EncodeIsLoop(c, message);
    EncodeIsBlocks(c, message);
    var out := EncodeBlocks(c, message).value.1;
    BlocksRoundTrip(c, d, message);
    DecodeIsLoop(d, out);
    ToBytesKeepsBytes(Padded(message, c.blockSize));
  }
}
