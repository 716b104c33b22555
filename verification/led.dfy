/** The LED driver task: how each `LedState` message becomes (or does not become)
    one `write` of a single colour to the SK6812. */
module Led {
  import opened Base
  import Sk6812

  datatype LedState = Color(color: Sk6812.RGBW) | Default | Off | Noop

  /** The ambient colour: a dim green, written at startup and for `Default`. */
  const AmbientColor: Sk6812.RGBW := Sk6812.New(0, 10, 0, 0)

  /** The one-element array written before the driver starts receiving. */
  const StartupWrite: seq<Sk6812.RGBW> := [AmbientColor]

  /** The colours `write` is called with for one message; `None` when the message
      causes no transmission. */
  function Transmission(m: LedState): (t: Option<seq<Sk6812.RGBW>>)
    ensures t.None? <==> m.Noop?
    ensures t.Some? ==> |t.value| == 1
    ensures m.Color? ==> t == Some([m.color])
    ensures m.Default? ==> t == Some(StartupWrite)
    ensures m.Off? ==> t == Some([Sk6812.Black()])
  {
    match m
    case Color(c) => Some([c])
    case Default => Some([Sk6812.New(0, 10, 0, 0)])
    case Off => Some([Sk6812.Black()])
    case Noop => None
  }

  /** The writes made while receiving `ms`, in the loop's order. */
  function Writes(ms: seq<LedState>): (w: seq<seq<Sk6812.RGBW>>)
    ensures |w| <= |ms|
    ensures forall i :: 0 <= i < |w| ==> |w[i]| == 1
  {
    if |ms| == 0 then []
    else
      (match Transmission(ms[0]) case Some(t) => [t] case None => []) + Writes(ms[1..])
  }

  /** Every write the driver task makes: the startup write, then one per message. */
  function Run(ms: seq<LedState>): (writes: seq<seq<Sk6812.RGBW>>)
    ensures |writes| >= 1 && writes[0] == StartupWrite
  {
    [StartupWrite] + Writes(ms)
  }

  /** The messages other than `Noop`, in the order they were sent. */
  function Sent(ms: seq<LedState>): (sent: seq<LedState>)
    ensures |sent| <= |ms|
    ensures forall i :: 0 <= i < |sent| ==> !sent[i].Noop?
    ensures forall m :: m in sent <==> m in ms && !m.Noop?
    ensures |ms| == 1 ==> sent == if ms[0].Noop? then [] else ms
  {
    if |ms| == 0 then []
    else if ms[0].Noop? then Sent(ms[1..])
    else [ms[0]] + Sent(ms[1..])
  }

  /** Filtering two streams one after the other keeps each stream's messages, in
      order: with `Sent([m])` being `[m]` or nothing, this fixes the order and the
      multiplicity of what is kept. */
  lemma {:induction false} SentAppend(a: seq<LedState>, b: seq<LedState>)
    ensures Sent(a + b) == Sent(a) + Sent(b)
    decreases |a|
  {
    if |a| == 0 {
      assert a + b == b;
    } else {
      assert (a + b)[0] == a[0] && (a + b)[1..] == a[1..] + b;
      SentAppend(a[1..], b);
    }
  }

  /** The colour a non-`Noop` message asks for. */
  function ColorOf(m: LedState): Sk6812.RGBW
    requires !m.Noop?
  {
    match m
    case Color(c) => c
    case Default => AmbientColor
    case Off => Sk6812.Black()
  }

  /** One single-colour write per non-`Noop` message, in message order. */
  lemma {:induction false} WritesFollowMessages(ms: seq<LedState>)
    ensures |Writes(ms)| == |Sent(ms)|
    ensures forall i :: 0 <= i < |Sent(ms)| ==> Writes(ms)[i] == [ColorOf(Sent(ms)[i])]
    decreases |ms|
  {
    if |ms| > 0 {
      var rest := ms[1..];
      WritesFollowMessages(rest);
      if ms[0].Noop? {
        assert Writes(ms) == Writes(rest) && Sent(ms) == Sent(rest);
      } else {
        assert Writes(ms) == [[ColorOf(ms[0])]] + Writes(rest);
        assert Sent(ms) == [ms[0]] + Sent(rest);
      }
    }
  }

  /** The driver transmits once at startup and once per non-`Noop` message. */
  lemma RunCount(ms: seq<LedState>)
    ensures |Run(ms)| == 1 + |Sent(ms)|
  {
    WritesFollowMessages(ms);
  }

  /** Receiving two message streams one after the other writes what each does alone. */
  lemma {:induction false} WritesAppend(a: seq<LedState>, b: seq<LedState>)
    ensures Writes(a + b) == Writes(a) + Writes(b)
    decreases |a|
  {
    if |a| == 0 {
      assert a + b == b;
    } else {
      assert (a + b)[1..] == a[1..] + b;
      WritesAppend(a[1..], b);
    }
  }

  /** The waveform frames of every write the driver makes. */
  function Frames(ms: seq<LedState>): (fs: seq<Sk6812.Frame>)
    ensures |fs| == |Run(ms)|
    ensures forall i :: 0 <= i < |fs| ==> fs[i] == Sk6812.Write(Run(ms)[i])
  {
    var writes := Run(ms);
    seq(|writes|, i requires 0 <= i < |writes| => Sk6812.Write(writes[i]))
  }

  /** Frame 0 is the startup colour and frame `i + 1` the colour of non-`Noop`
      message `i`. Every frame is one colour: 32 bits of ten cycles each, then the
      latch gap. */
  lemma FrameOf(ms: seq<LedState>, i: nat)
    requires i < |Frames(ms)|
    ensures |Frames(ms)| == 1 + |Sent(ms)|
    ensures i == 0 ==> Frames(ms)[i] == Sk6812.Write([AmbientColor])
    ensures i > 0 ==> Frames(ms)[i] == Sk6812.Write([ColorOf(Sent(ms)[i - 1])])
    ensures Sk6812.Cycles(Frames(ms)[i].pulses) == Sk6812.CyclesPerBit * 32
    ensures Frames(ms)[i].latchMicros == Sk6812.LatchMicros
  {
    WritesFollowMessages(ms);
    var writes := Run(ms);
    assert |writes[i]| == 1 by {
      if i > 0 {
        assert writes[i] == Writes(ms)[i - 1];
      }
    }
  }
}
