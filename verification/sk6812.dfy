/** The SK6812 RGBW LED wire encoding: colour packing, the word each colour
    becomes, the order its bits leave the PIO output shift register, and the
    pulse train the four-instruction PIO program drives for each bit. */
module Sk6812 {
  import Bits

  /** A colour, with its channels in the packed struct's memory order `w, b, r, g`. */
  datatype RGBW = RGBW(w: bv8, b: bv8, r: bv8, g: bv8)

  /** `RGBW::new(r, g, b, w)`: the arguments come in a different order from the fields. */
  function New(r: bv8, g: bv8, b: bv8, w: bv8): (c: RGBW)
    ensures c.r == r && c.g == g && c.b == b && c.w == w
  {
    RGBW(w := w, b := b, r := r, g := g)
  }

  /** `RGBW::black()`: every channel off. */
  function Black(): (c: RGBW)
    ensures c.r == 0 && c.g == 0 && c.b == 0 && c.w == 0
  {
    New(0, 0, 0, 0)
  }

  /** `RGBW::full_on()`: every channel at full brightness. */
  function FullOn(): (c: RGBW)
    ensures c.r == 0xFF && c.g == 0xFF && c.b == 0xFF && c.w == 0xFF
  {
    New(255, 255, 255, 255)
  }

  /** The union's `raw: [u8; 4]` view: a packed struct lays its fields out in
      declaration order with no padding. */
  function RawBytes(c: RGBW): (bytes: seq<bv8>)
    ensures |bytes| == 4
  {
    [c.w, c.b, c.r, c.g]
  }

  /** A `u32` loaded from four bytes on a little-endian target such as the RP2040. */
  function LoadLe32(bytes: seq<bv8>): bv32
    requires |bytes| == 4
  {
    (bytes[0] as bv32) | ((bytes[1] as bv32) << 8) | ((bytes[2] as bv32) << 16) | ((bytes[3] as bv32) << 24)
  }

  /** The union's `raw32` view, the word `write` hands to the DMA engine. */
  function Raw32(c: RGBW): (word: bv32)
    ensures word == ((c.g as bv32) << 24) | ((c.r as bv32) << 16) | ((c.b as bv32) << 8) | (c.w as bv32)
  {
    LoadLe32(RawBytes(c))
  }

  /** Byte `k` of a word, counting from the most significant. */
  function ByteOfWord(word: bv32, k: nat): bv8
    requires k < 4
  {
    if k == 0 then ((word >> 24) & 0xFF) as bv8
    else if k == 1 then ((word >> 16) & 0xFF) as bv8
    else if k == 2 then ((word >> 8) & 0xFF) as bv8
    else (word & 0xFF) as bv8
  }

  /** The word's bytes, most significant first, are green, red, blue, white. */
  lemma Raw32Bytes(c: RGBW)
    ensures ByteOfWord(Raw32(c), 0) == c.g && ByteOfWord(Raw32(c), 1) == c.r
    ensures ByteOfWord(Raw32(c), 2) == c.b && ByteOfWord(Raw32(c), 3) == c.w
  {
  }

  /** The 32 bits of a word as they sit in the output shift register, bit 31 first. */
  function RegisterBits(word: bv32): (reg: seq<bool>)
    ensures |reg| == 32
  {
    Bits.BitsOf(ByteOfWord(word, 0)) + Bits.BitsOf(ByteOfWord(word, 1))
    + Bits.BitsOf(ByteOfWord(word, 2)) + Bits.BitsOf(ByteOfWord(word, 3))
  }

  /** Autopull threshold: a new word is pulled after 32 bits have been shifted out. */
  const PullThreshold: nat := 32

  /** `n` executions of `out x, 1` with `ShiftDirection::Left`: each takes the
      leftmost register bit and shifts a zero in on the right. */
  function ShiftOut(osr: seq<bool>, n: nat): (bits: seq<bool>)
    requires |osr| > 0
    ensures |bits| == n
    decreases n
  {
    if n == 0 then []
    else [osr[0]] + ShiftOut(osr[1..] + [false], n - 1)
  }

  /** Shifting left reads the register from its leftmost bit onwards. */
  lemma {:induction false} ShiftOutReadsInOrder(osr: seq<bool>, n: nat)
    requires 0 < |osr| && n <= |osr|
    ensures ShiftOut(osr, n) == osr[..n]
    decreases n
  {
    if n > 0 {
      ShiftOutReadsInOrder(osr[1..] + [false], n - 1);
      assert (osr[1..] + [false])[..n - 1] == osr[1..n];
    }
  }

  /** The bits one pulled word puts on the wire: the state machine shifts the whole
      register out before autopull refills it. */
  function WordBits(word: bv32): (bits: seq<bool>)
    ensures |bits| == 32
  {
    ShiftOut(RegisterBits(word), PullThreshold)
  }

  /** The 32 bits one colour puts on the wire, in transmission order. */
  function WireBits(c: RGBW): (bits: seq<bool>)
    ensures |bits| == 32
  {
    WordBits(Raw32(c))
  }

  /** The wire carries green, red, blue, white, each most significant bit first. */
  lemma WireOrderIsGRBW(c: RGBW)
    ensures WireBits(c) == Bits.BitsOf(c.g) + Bits.BitsOf(c.r) + Bits.BitsOf(c.b) + Bits.BitsOf(c.w)
  {
    ShiftOutReadsInOrder(RegisterBits(Raw32(c)), 32);
    Raw32Bytes(c);
  }

  /** What an SK6812 latches from 32 received bits. */
  function DecodeWire(bits: seq<bool>): RGBW
    requires |bits| == 32
  {
    New(Bits.ByteOf(bits[8..16]), Bits.ByteOf(bits[..8]), Bits.ByteOf(bits[16..24]), Bits.ByteOf(bits[24..]))
  }

  /** The LED recovers exactly the colour that was sent. */
  lemma WireRoundTrip(c: RGBW)
    ensures DecodeWire(WireBits(c)) == c
  {
    WireOrderIsGRBW(c);
    DecodeConcat(Bits.BitsOf(c.g), Bits.BitsOf(c.r), Bits.BitsOf(c.b), Bits.BitsOf(c.w));
    Bits.ByteOfBitsOf(c.g);
    Bits.ByteOfBitsOf(c.r);
    Bits.ByteOfBitsOf(c.b);
    Bits.ByteOfBitsOf(c.w);
  }

  lemma DecodeConcat(g: seq<bool>, r: seq<bool>, b: seq<bool>, w: seq<bool>)
    requires |g| == |r| == |b| == |w| == 8
    ensures DecodeWire(g + r + b + w) == New(Bits.ByteOf(r), Bits.ByteOf(g), Bits.ByteOf(b), Bits.ByteOf(w))
  {
    var bits := g + r + b + w;
    assert bits[..8] == g;
    assert bits[8..16] == r;
    assert bits[16..24] == b;
    assert bits[24..] == w;
  }

  /** The words `write` pushes, one per colour in index order. */
  function Words(colors: seq<RGBW>): (words: seq<bv32>)
    ensures |words| == |colors|
    ensures forall i :: 0 <= i < |colors| ==> words[i] == Raw32(colors[i])
  {
    seq(|colors|, i requires 0 <= i < |colors| => Raw32(colors[i]))
  }

  /** Every chunk is one 32-bit frame. */
  predicate Framed<T>(chunks: seq<seq<T>>)
  {
    forall i :: 0 <= i < |chunks| ==> |chunks[i]| == 32
  }

  /** The chunks one after another. */
  function Flatten<T>(chunks: seq<seq<T>>): seq<T>
  {
    if |chunks| == 0 then [] else chunks[0] + Flatten(chunks[1..])
  }

  lemma FramedTail<T>(chunks: seq<seq<T>>)
    requires Framed(chunks) && |chunks| > 0
    ensures |chunks[0]| == 32 && Framed(chunks[1..])
  {
    forall i | 0 <= i < |chunks| - 1
      ensures |chunks[1..][i]| == 32
    {
      assert chunks[1..][i] == chunks[i + 1];
    }
  }

  lemma {:induction false} FlattenLength<T>(chunks: seq<seq<T>>)
    requires Framed(chunks)
    ensures |Flatten(chunks)| == 32 * |chunks|
    decreases |chunks|
  {
    if |chunks| > 0 {
      FramedTail(chunks);
      FlattenLength(chunks[1..]);
    }
  }

  /** Element `k` of frame `i` is element `32 * i + k` of the flattened frames. */
  lemma {:induction false} FlattenAt<T>(chunks: seq<seq<T>>, i: nat, k: nat)
    requires Framed(chunks) && i < |chunks| && k < 32
    ensures |Flatten(chunks)| == 32 * |chunks|
    ensures Flatten(chunks)[32 * i + k] == chunks[i][k]
    decreases i
  {
    FlattenLength(chunks);
    FramedTail(chunks);
    var first, rest := chunks[0], Flatten(chunks[1..]);
    if i == 0 {
      assert (first + rest)[k] == first[k];
    } else {
      FlattenAt(chunks[1..], i - 1, k);
      IndexPastPrefix(first, rest, 32 * (i - 1) + k);
      assert chunks[1..][i - 1] == chunks[i];
    }
  }

  /** Indexing past a prefix lands in the suffix; `FlattenAt` needs it. */
  lemma IndexPastPrefix<T>(a: seq<T>, b: seq<T>, n: nat)
    requires n < |b|
    ensures (a + b)[|a| + n] == b[n]
  {
  }

  /** The pushed words' frames, one per word in push order. */
  function WordFrames(words: seq<bv32>): (frames: seq<seq<bool>>)
    ensures |frames| == |words| && Framed(frames)
    ensures forall i :: 0 <= i < |words| ==> frames[i] == WordBits(words[i])
  {
    seq(|words|, i requires 0 <= i < |words| => WordBits(words[i]))
  }

  /** The bits the state machine shifts out for the pushed words, pulling the next
      word each time the previous one is exhausted. */
  function BitStream(words: seq<bv32>): (bits: seq<bool>)
    ensures |bits| == 32 * |words|
  {
    FlattenLength(WordFrames(words));
    Flatten(WordFrames(words))
  }

  /** Bit `k` of colour `i` is bit `32 * i + k` of the stream. */
  lemma BitStreamAt(colors: seq<RGBW>, i: nat, k: nat)
    requires i < |colors| && k < 32
    ensures BitStream(Words(colors))[32 * i + k] == WireBits(colors[i])[k]
  {
    FlattenAt(WordFrames(Words(colors)), i, k);
  }

  /** Splits a received stream into 32-bit frames and decodes each; a trailing
      partial frame latches nothing. */
  function DecodeStream(bits: seq<bool>): seq<RGBW>
    decreases |bits|
  {
    if |bits| < 32 then [] else [DecodeWire(bits[..32])] + DecodeStream(bits[32..])
  }

  /** The first LED takes the first 32 bits and passes the rest on. */
  lemma DecodeStreamCons(first: seq<bool>, rest: seq<bool>)
    requires |first| == 32
    ensures DecodeStream(first + rest) == [DecodeWire(first)] + DecodeStream(rest)
  {
    assert (first + rest)[..32] == first;
    assert (first + rest)[32..] == rest;
  }

  /** Each LED in the chain decodes one frame, in order. */
  lemma {:induction false} DecodeFlatten(frames: seq<seq<bool>>)
    requires Framed(frames)
    ensures |DecodeStream(Flatten(frames))| == |frames|
    ensures forall i :: 0 <= i < |frames| ==> DecodeStream(Flatten(frames))[i] == DecodeWire(frames[i])
    decreases |frames|
  {
    if |frames| > 0 {
      FramedTail(frames);
      var rest := Flatten(frames[1..]);
      DecodeFlatten(frames[1..]);
      DecodeStreamCons(frames[0], rest);
      var decoded := DecodeStream(Flatten(frames));
      assert decoded == [DecodeWire(frames[0])] + DecodeStream(rest);
      forall i | 0 < i < |frames|
        ensures decoded[i] == DecodeWire(frames[i])
      {
        assert frames[1..][i - 1] == frames[i];
      }
    }
  }

  /** A chain of LEDs decodes exactly the colours written, in order. */
  lemma StreamRoundTrip(colors: seq<RGBW>)
    ensures DecodeStream(BitStream(Words(colors))) == colors
  {
    var frames := WordFrames(Words(colors));
    DecodeFlatten(frames);
    var decoded := DecodeStream(Flatten(frames));
    forall i | 0 <= i < |colors|
      ensures decoded[i] == colors[i]
    {
      assert frames[i] == WireBits(colors[i]);
      WireRoundTrip(colors[i]);
    }
    SameElements(decoded, colors);
  }

  /** Sequences that agree at every index are equal; `StreamRoundTrip` needs it. */
  lemma SameElements<T>(a: seq<T>, b: seq<T>)
    requires |a| == |b| && forall i :: 0 <= i < |a| ==> a[i] == b[i]
    ensures a == b
  {
  }

  // ---------------------------------------------------------------------------
  // The PIO bit loop

  /** Start-bit, data-bit and stop-bit durations, in state-machine cycles. */
  const T1: nat := 2
  const T2: nat := 5
  const T3: nat := 3
  const CyclesPerBit: nat := T1 + T2 + T3

  datatype Op = OutX | JmpNotX(target: nat) | Jmp(target: nat) | Nop

  /** One instruction: its operation, the side-set level it drives, and its delay. */
  datatype Instr = Instr(op: Op, side: bool, delay: nat)

  /** `bitloop: out x, 1 side 0 [T3-1]; jmp !x do_zero side 1 [T1-1];
      jmp bitloop side 1 [T2-1]; do_zero: nop side 0 [T2-1]`, wrapping 3 -> 0. */
  const Program: seq<Instr> := [
    Instr(OutX, false, T3 - 1),
    Instr(JmpNotX(3), true, T1 - 1),
    Instr(Jmp(0), true, T2 - 1),
    Instr(Nop, false, T2 - 1)
  ]
  const WrapTarget: nat := 0
  const WrapSource: nat := 3

  /** The pin held at `high` for `cycles` state-machine cycles. */
  datatype Pulse = Pulse(high: bool, cycles: nat)

  /** The instruction executed after the one at `pc`, with `x` the bit just shifted out. */
  function NextPc(pc: nat, x: bool): (next: nat)
    requires pc < |Program|
    ensures next < |Program|
  {
    match Program[pc].op
    case JmpNotX(t) => if !x then t else pc + 1
    case Jmp(t) => t
    case _ => if pc == WrapSource then WrapTarget else pc + 1
  }

  /** The pulses driven from `pc` until control returns to the wrap target, where
      the next `out` begins the next bit. */
  function Exec(x: bool, pc: nat, fuel: nat): (ps: seq<Pulse>)
    requires pc < |Program|
    ensures 1 <= |ps| <= fuel + 1
    ensures ps[0] == Pulse(Program[pc].side, 1 + Program[pc].delay)
    decreases fuel
  {
    var ins := Program[pc];
    var here := [Pulse(ins.side, 1 + ins.delay)];
    var next := NextPc(pc, x);
    if next == WrapTarget || fuel == 0 then here else here + Exec(x, next, fuel - 1)
  }

  /** The pulses for one bit: one pass of the loop from `bitloop`. */
  function BitPulses(bit: bool): (ps: seq<Pulse>)
    ensures 1 <= |ps| <= |Program| + 1
    ensures ps[0] == Pulse(false, T3)
  {
    Exec(bit, WrapTarget, |Program|)
  }

  function Cycles(ps: seq<Pulse>): nat
  {
    if |ps| == 0 then 0 else ps[0].cycles + Cycles(ps[1..])
  }

  function HighCycles(ps: seq<Pulse>): nat
  {
    if |ps| == 0 then 0 else (if ps[0].high then ps[0].cycles else 0) + HighCycles(ps[1..])
  }

  /** Each bit is low for T3, high for T1, then high (a one) or low (a zero) for T2:
      ten cycles in all, seven of them high for a one and two for a zero. */
  lemma BitTiming(bit: bool)
    ensures BitPulses(bit) == [Pulse(false, T3), Pulse(true, T1), Pulse(bit, T2)]
    ensures Cycles(BitPulses(bit)) == CyclesPerBit == 10
    ensures HighCycles(BitPulses(bit)) == if bit then 7 else 2
  {
    var tail := if bit then Exec(bit, 2, 2) else Exec(bit, 3, 2);
    assert tail == [Pulse(bit, T2)];
    assert Exec(bit, 1, 3) == [Pulse(true, T1)] + tail;
    var ps := BitPulses(bit);
    assert ps == [Pulse(false, T3)] + Exec(bit, 1, 3);
    assert ps[1..] == [Pulse(true, T1), Pulse(bit, T2)];
    assert ps[1..][1..] == [Pulse(bit, T2)];
    assert ps[1..][1..][1..] == [];
    assert Cycles(ps[1..][1..]) == T2;
    assert Cycles(ps[1..]) == T1 + T2;
    assert HighCycles(ps[1..][1..]) == if bit then T2 else 0;
    assert HighCycles(ps[1..]) == T1 + if bit then T2 else 0;
  }

  /** Halfway between a zero's high time, T1, and a one's, T1 + T2. */
  const ReadThreshold: nat := (T1 + (T1 + T2)) / 2

  /** The receiver's reading of one bit: a high time past the threshold is a one. */
  function ReadBit(ps: seq<Pulse>): bool
  {
    HighCycles(ps) > ReadThreshold
  }

  lemma ReadBitRecoversBit(bit: bool)
    ensures ReadBit(BitPulses(bit)) == bit
  {
    BitTiming(bit);
  }

  function Pulses(bits: seq<bool>): seq<Pulse>
  {
    if |bits| == 0 then [] else BitPulses(bits[0]) + Pulses(bits[1..])
  }

  lemma {:induction false} CyclesAppend(a: seq<Pulse>, b: seq<Pulse>)
    ensures Cycles(a + b) == Cycles(a) + Cycles(b)
    decreases |a|
  {
    if |a| > 0 {
      assert (a + b)[0] == a[0];
      assert (a + b)[1..] == a[1..] + b;
      CyclesAppend(a[1..], b);
    } else {
      assert a + b == b;
    }
  }

  /** Every bit takes the same ten cycles, so a stream takes ten cycles per bit. */
  lemma {:induction false} PulsesDuration(bits: seq<bool>)
    ensures Cycles(Pulses(bits)) == CyclesPerBit * |bits|
    decreases |bits|
  {
    if |bits| > 0 {
      BitTiming(bits[0]);
      CyclesAppend(BitPulses(bits[0]), Pulses(bits[1..]));
      PulsesDuration(bits[1..]);
    }
  }

  /** Minimum idle time after a frame, in microseconds, before the LEDs latch. */
  const LatchMicros: nat := 55

  /** One call of `write`: the pulse train for every colour, then the latch gap. */
  datatype Frame = Frame(pulses: seq<Pulse>, latchMicros: nat)

  function Write(colors: seq<RGBW>): (f: Frame)
    ensures f.latchMicros == LatchMicros
    ensures Cycles(f.pulses) == CyclesPerBit * 32 * |colors|
  {
    PulsesDuration(BitStream(Words(colors)));
    Frame(Pulses(BitStream(Words(colors))), LatchMicros)
  }
}
