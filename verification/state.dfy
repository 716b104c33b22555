/** The till's transaction state machine: `main_state` lifted out of its task as a
    step function from an input event to the new state, the print intents sent to
    the printer driver and the messages sent to the LED task. */
module State {
  import opened Base
  import Sk6812
  import Led
  import Printer

  datatype InputEvent =
    | ProduceButtonPressed(image: Printer.Images, price: u16)
    | VoidButtonPressed
    | TotalButtonPressed

  /** `in_transaction` and `current_price`. */
  datatype TillState = TillState(inTransaction: bool, currentPrice: u16)

  /** The state `main_state` starts in: idle, nothing owed. */
  const Init: TillState := TillState(false, 0)

  /** The largest running total a transaction accepts. */
  const PriceCap: nat := 999

  /** The colour shown while an event is handled. */
  const BusyColor: Sk6812.RGBW := Sk6812.New(0, 0, 64, 0)

  /** The colour the error sequence flashes. */
  const AlertColor: Sk6812.RGBW := Sk6812.New(128, 0, 0, 0)

  /** How many times the error sequence flashes. */
  const ErrorFlashes: nat := 3

  /** Idle means nothing owed, and the total never passes the cap. */
  predicate Valid(s: TillState)
  {
    (!s.inTransaction ==> s.currentPrice == 0) && s.currentPrice <= PriceCap
  }

  /** What one event produces. */
  datatype Effects = Effects(state: TillState, prints: seq<Printer.DriverEvent>, leds: seq<Led.LedState>)

  // ---------------------------------------------------------------------------
  // LED messages

  /** `n` rounds of the error flash: the alert colour, then the ambient colour. */
  function Flashes(n: nat): (ms: seq<Led.LedState>)
    ensures |ms| == 2 * n
    ensures forall i :: 0 <= i < |ms| ==>
              ms[i] == if i % 2 == 0 then Led.Color(AlertColor) else Led.Default
  {
    if n == 0 then []
    else [Led.Color(AlertColor), Led.Default] + Flashes(n - 1)
  }

  /** `err_toggle`: three rounds of the error flash. */
  function ErrToggle(): (ms: seq<Led.LedState>)
    ensures |ms| == 6
    ensures ms == [Led.Color(AlertColor), Led.Default, Led.Color(AlertColor), Led.Default,
                   Led.Color(AlertColor), Led.Default]
  {
    Flashes(ErrorFlashes)
  }

  /** `set_led_state`: the colour, or the ambient default, followed by a `Noop`. */
  function SetLedState(color: Option<Sk6812.RGBW>): (ms: seq<Led.LedState>)
    ensures |ms| == 2 && ms[1] == Led.Noop
    ensures ms[0] == if color.Some? then Led.Color(color.value) else Led.Default
  {
    match color
    case Some(c) => [Led.Color(c), Led.Noop]
    case None => [Led.Default, Led.Noop]
  }

  /** The messages of one event: busy first, the error sequence if the event was
      refused, back to the ambient colour last. */
  function Lights(refused: bool): (ms: seq<Led.LedState>)
    ensures |ms| == if refused then 10 else 4
    ensures ms[..2] == [Led.Color(BusyColor), Led.Noop]
    ensures ms[|ms| - 2..] == [Led.Default, Led.Noop]
    ensures refused ==> ms[2..8] == ErrToggle()
  {
    SetLedState(Some(BusyColor)) + (if refused then ErrToggle() else []) + SetLedState(None)
  }

  // ---------------------------------------------------------------------------
  // The step

  /** The running total a produce event starts from: the current one inside a
      transaction, zero when it opens one. */
  function Opening(s: TillState): u16
  {
    if s.inTransaction then s.currentPrice else 0
  }

  /** The produce branch, given the sum the cap is checked against and stored. */
  function Produce(s: TillState, image: Printer.Images, price: u16, sum: int): (e: Effects)
    ensures e.state.inTransaction
    ensures (|e.prints| > 0 && e.prints[0] == Printer.PrintHeader) <==> !s.inTransaction
    ensures 0 <= sum <= PriceCap ==>
              && e.state.currentPrice == sum && e.leds == Lights(false)
              && |e.prints| >= 1 && e.prints[|e.prints| - 1] == Printer.PrintLine(image, price)
    ensures !(0 <= sum <= PriceCap) ==>
              && e.state.currentPrice == Opening(s) && e.leds == Lights(true)
              && e.prints == if s.inTransaction then [] else [Printer.PrintHeader]
  {
    var header := if s.inTransaction then [] else [Printer.PrintHeader];
    if sum > PriceCap || sum < 0 then
      Effects(TillState(true, Opening(s)), header, Lights(true))
    else
      Effects(TillState(true, sum), header + [Printer.PrintLine(image, price)], Lights(false))
  }

  /** Whether the firmware refuses the event and runs the error sequence. */
  predicate Refused(s: TillState, ev: InputEvent)
  {
    match ev
    case ProduceButtonPressed(_, price) => Opening(s) + price > PriceCap
    case _ => !s.inTransaction
  }

  /** One pass of `main_state`'s loop. */
  function Step(s: TillState, ev: InputEvent): (e: Effects)
    ensures Valid(s) ==> Valid(e.state)
    ensures e.leds == Lights(Refused(s, ev))
    ensures e.leds[..2] == [Led.Color(BusyColor), Led.Noop]
    ensures e.leds[|e.leds| - 2..] == [Led.Default, Led.Noop]
    ensures !Refused(s, ev) ==> |e.prints| >= 1
    ensures Refused(s, ev) && !ev.ProduceButtonPressed? ==> e.state == s && e.prints == []
  {
    match ev
    case ProduceButtonPressed(image, price) => Produce(s, image, price, Opening(s) + price)
    case VoidButtonPressed =>
      if s.inTransaction then Effects(Init, [Printer.PrintVoid], Lights(false))
      else Effects(s, [], Lights(true))
    case TotalButtonPressed =>
      if s.inTransaction then Effects(Init, [Printer.PrintTotal(s.currentPrice)], Lights(false))
      else Effects(s, [], Lights(true))
  }

  /** A produce press: a header exactly when it opens a transaction, then either one
      line with the total raised by the price, or no line, the error sequence and
      the total kept. */
  lemma ProduceStep(s: TillState, image: Printer.Images, price: u16)
    ensures var e := Step(s, ProduceButtonPressed(image, price));
            && e.state.inTransaction
            && (Printer.PrintHeader in e.prints <==> !s.inTransaction)
            && (!s.inTransaction ==> e.prints[0] == Printer.PrintHeader)
            && (Opening(s) + price > PriceCap ==>
                  e.state.currentPrice == Opening(s)
                  && (forall p :: p in e.prints ==> !p.PrintLine?)
                  && e.prints == (if s.inTransaction then [] else [Printer.PrintHeader])
                  && e.leds == SetLedState(Some(BusyColor)) + ErrToggle() + SetLedState(None))
            && (Opening(s) + price <= PriceCap ==>
                  e.state.currentPrice == Opening(s) + price
                  && e.prints[|e.prints| - 1] == Printer.PrintLine(image, price)
                  && |e.prints| == (if s.inTransaction then 1 else 2))
  {
    var e := Step(s, ProduceButtonPressed(image, price));
    if !s.inTransaction && Opening(s) + price <= PriceCap {
      assert e.prints == [Printer.PrintHeader, Printer.PrintLine(image, price)];
    }
  }

  /** Void inside a transaction prints the void slip and returns to idle; when idle
      it prints nothing and runs the error sequence. */
  lemma VoidStep(s: TillState)
    ensures var e := Step(s, VoidButtonPressed);
            if s.inTransaction then e.state == Init && e.prints == [Printer.PrintVoid]
                                    && e.leds == SetLedState(Some(BusyColor)) + SetLedState(None)
            else e.state == s && e.prints == []
                 && e.leds == SetLedState(Some(BusyColor)) + ErrToggle() + SetLedState(None)
  {
  }

  /** Total inside a transaction prints the running total and returns to idle; when
      idle it prints nothing and runs the error sequence. */
  lemma TotalStep(s: TillState)
    ensures var e := Step(s, TotalButtonPressed);
            if s.inTransaction then e.state == Init && e.prints == [Printer.PrintTotal(s.currentPrice)]
            else e.state == s && e.prints == [] && e.leds == Lights(true)
  {
  }

  /** A second Total straight after one is refused. */
  lemma TotalTwiceRefused(s: TillState)
    ensures var after := Step(s, TotalButtonPressed).state;
            Refused(after, TotalButtonPressed)
            && Step(after, TotalButtonPressed).prints == []
            && Step(after, TotalButtonPressed).leds == Lights(true)
  {
  }

  // ---------------------------------------------------------------------------
  // Runs of events

  /** The effects of a stream of events, one `Step` after another. */
  function Run(s: TillState, evs: seq<InputEvent>): (e: Effects)
    ensures Valid(s) ==> Valid(e.state)
    decreases |evs|
  {
    if |evs| == 0 then Effects(s, [], [])
    else
      var first := Step(s, evs[0]);
      var rest := Run(first.state, evs[1..]);
      Effects(rest.state, first.prints + rest.prints, first.leds + rest.leds)
  }

  /** Running two streams one after the other is running their concatenation. */
  lemma {:induction false} RunAppend(s: TillState, a: seq<InputEvent>, b: seq<InputEvent>)
    ensures var ra := Run(s, a);
            var rb := Run(ra.state, b);
            Run(s, a + b) == Effects(rb.state, ra.prints + rb.prints, ra.leds + rb.leds)
    decreases |a|
  {
    if |a| == 0 {
      assert a + b == b;
    } else {
      RunAppendStep(s, a, b);
    }
  }

  /** The inductive step of `RunAppend`: peel off the first event of `a`. */
  lemma RunAppendStep(s: TillState, a: seq<InputEvent>, b: seq<InputEvent>)
    requires |a| > 0
    ensures var ra := Run(s, a);
            var rb := Run(ra.state, b);
            Run(s, a + b) == Effects(rb.state, ra.prints + rb.prints, ra.leds + rb.leds)
    decreases |a|, 0
  {
    var first := Step(s, a[0]);
    assert (a + b)[0] == a[0] && (a + b)[1..] == a[1..] + b;
    RunAppend(first.state, a[1..], b);
    var ra := Run(first.state, a[1..]);
    var rb := Run(ra.state, b);
    assert first.prints + ra.prints + rb.prints == first.prints + (ra.prints + rb.prints);
    assert first.leds + ra.leds + rb.leds == first.leds + (ra.leds + rb.leds);
  }

  /** Every event is a produce press. */
  predicate AllProduce(evs: seq<InputEvent>)
  {
    forall i :: 0 <= i < |evs| ==> evs[i].ProduceButtonPressed?
  }

  /** The sum of the prices of the produce presses. */
  function PriceSum(evs: seq<InputEvent>): nat
  {
    if |evs| == 0 then 0
    else (if evs[0].ProduceButtonPressed? then evs[0].price else 0) + PriceSum(evs[1..])
  }

  /** One `PrintLine` per produce press, in order. */
  function Lines(evs: seq<InputEvent>): seq<Printer.DriverEvent>
  {
    if |evs| == 0 then []
    else
      (if evs[0].ProduceButtonPressed? then [Printer.PrintLine(evs[0].image, evs[0].price)] else [])
      + Lines(evs[1..])
  }

  /** Line `i` is the item and price of press `i`. */
  lemma {:induction false} LinesAt(evs: seq<InputEvent>, i: nat)
    requires AllProduce(evs) && i < |evs|
    ensures |Lines(evs)| == |evs|
    ensures Lines(evs)[i] == Printer.PrintLine(evs[i].image, evs[i].price)
    decreases |evs|
  {
    if i > 0 {
      LinesAt(evs[1..], i - 1);
    } else if |evs| > 1 {
      LinesAt(evs[1..], 0);
    }
  }

  /** Inside a transaction, produce presses that stay within the cap each print their
      line, and the running total grows by their sum. */
  lemma {:induction false} ProduceRun(c: u16, evs: seq<InputEvent>)
    requires AllProduce(evs) && c + PriceSum(evs) <= PriceCap
    ensures Run(TillState(true, c), evs).prints == Lines(evs)
    ensures Run(TillState(true, c), evs).state == TillState(true, c + PriceSum(evs))
    decreases |evs|
  {
    if |evs| > 0 {
      var ev := evs[0];
      AcceptedPress(c, ev);
      ProduceRun(c + ev.price, evs[1..]);
    }
  }

  /** A press inside a transaction that keeps the total within the cap prints its
      line and raises the total by its price. */
  lemma AcceptedPress(c: u16, ev: InputEvent)
    requires ev.ProduceButtonPressed? && c + ev.price <= PriceCap
    ensures Step(TillState(true, c), ev).state == TillState(true, c + ev.price)
    ensures Step(TillState(true, c), ev).prints == [Printer.PrintLine(ev.image, ev.price)]
  {
  }

  /** The first press of a produce stream, and the rest. */
  lemma ProduceTail(evs: seq<InputEvent>)
    requires AllProduce(evs) && |evs| > 0
    ensures AllProduce(evs[1..])
    ensures PriceSum(evs) == evs[0].price + PriceSum(evs[1..])
    ensures Lines(evs) == [Printer.PrintLine(evs[0].image, evs[0].price)] + Lines(evs[1..])
  {
  }

  /** `Run` on a non-empty stream: the first step, then the rest. */
  lemma RunCons(s: TillState, evs: seq<InputEvent>)
    requires |evs| > 0
    ensures var first := Step(s, evs[0]);
            var rest := Run(first.state, evs[1..]);
            Run(s, evs) == Effects(rest.state, first.prints + rest.prints, first.leds + rest.leds)
  {
  }

  /** The press that opens a transaction prints the header and its line. */
  lemma OpeningPress(s: TillState, ev: InputEvent)
    requires !s.inTransaction && ev.ProduceButtonPressed? && ev.price <= PriceCap
    ensures Step(s, ev).state == TillState(true, ev.price)
    ensures Step(s, ev).prints == [Printer.PrintHeader, Printer.PrintLine(ev.image, ev.price)]
  {
  }

  /** A run from idle that opens with a press within the cap: the header, that
      press's line, then the run of the rest from the opened transaction. */
  lemma OpeningRun(s: TillState, evs: seq<InputEvent>)
    requires !s.inTransaction && |evs| > 0 && evs[0].ProduceButtonPressed? && evs[0].price <= PriceCap
    ensures var rest := Run(TillState(true, evs[0].price), evs[1..]);
            && Run(s, evs).prints
               == [Printer.PrintHeader, Printer.PrintLine(evs[0].image, evs[0].price)] + rest.prints
            && Run(s, evs).state == rest.state
  {
    OpeningPress(s, evs[0]);
    RunCons(s, evs);
  }

  /** A two-element prefix is its first element before the second; `IdlePrints`
      needs it. */
  lemma PairPrefix<T>(a: T, b: T, tail: seq<T>)
    ensures [a, b] + tail == [a] + ([b] + tail)
  {
  }

  /** From idle, produce presses within the cap print one header and then one line
      each, in order. */
  lemma IdlePrints(s: TillState, evs: seq<InputEvent>)
    requires !s.inTransaction && |evs| > 0 && AllProduce(evs) && PriceSum(evs) <= PriceCap
    ensures Run(s, evs).prints == [Printer.PrintHeader] + Lines(evs)
  {
    var line := Printer.PrintLine(evs[0].image, evs[0].price);
    ProduceTail(evs);
    OpeningRun(s, evs);
    ProduceRun(evs[0].price, evs[1..]);
    PairPrefix(Printer.PrintHeader, line, Lines(evs[1..]));
  }

  /** From idle, produce presses within the cap leave their sum as the running total. */
  lemma IdleTotal(s: TillState, evs: seq<InputEvent>)
    requires !s.inTransaction && |evs| > 0 && AllProduce(evs) && PriceSum(evs) <= PriceCap
    ensures Run(s, evs).state == TillState(true, PriceSum(evs))
  {
    ProduceTail(evs);
    OpeningRun(s, evs);
    ProduceRun(evs[0].price, evs[1..]);
  }

  /** From idle, produce presses within the cap print one header and then one line
      each, in order, and leave the sum as the running total. */
  lemma TransactionFromIdle(s: TillState, evs: seq<InputEvent>)
    requires !s.inTransaction && |evs| > 0 && AllProduce(evs) && PriceSum(evs) <= PriceCap
    ensures Run(s, evs).prints == [Printer.PrintHeader] + Lines(evs)
    ensures Run(s, evs).state == TillState(true, PriceSum(evs))
  {
    IdlePrints(s, evs);
    IdleTotal(s, evs);
  }

  /** A whole transaction: produce presses within the cap, then Total, print the
      header, the lines and the sum, and return to the initial state. */
  lemma Receipt(evs: seq<InputEvent>)
    requires |evs| > 0 && AllProduce(evs) && PriceSum(evs) <= PriceCap
    ensures Run(Init, evs + [TotalButtonPressed]).prints
         == [Printer.PrintHeader] + Lines(evs) + [Printer.PrintTotal(PriceSum(evs) as u16)]
    ensures Run(Init, evs + [TotalButtonPressed]).state == Init
  {
    TransactionFromIdle(Init, evs);
    RunAppend(Init, evs, [TotalButtonPressed]);
    var open := Run(Init, evs).state;
    assert Run(open, [TotalButtonPressed]).prints == [Printer.PrintTotal(PriceSum(evs) as u16)]
        && Run(open, [TotalButtonPressed]).state == Init by {
      RunCons(open, [TotalButtonPressed]);
      TotalStep(open);
    }
  }

  // ---------------------------------------------------------------------------
  // What the LED shows

  /** The error sequence lights the alert colour and the ambient colour in turn,
      three times. */
  lemma ErrToggleWrites()
    ensures Led.Writes(ErrToggle())
         == [[AlertColor], [Led.AmbientColor], [AlertColor], [Led.AmbientColor],
             [AlertColor], [Led.AmbientColor]]
  {
    var pair := [Led.Color(AlertColor), Led.Default];
    assert ErrToggle() == pair + pair + pair;
    assert Led.Writes(pair) == [[AlertColor], [Led.AmbientColor]] by {
      assert pair[1..][1..] == [];
      assert Led.Writes(pair[1..]) == [[Led.AmbientColor]];
    }
    Led.WritesAppend(pair + pair, pair);
    Led.WritesAppend(pair, pair);
  }

  /** The colours one event's messages make the LED driver write: busy, the error
      flashes when refused, then the ambient colour. */
  lemma LightsWrites(refused: bool)
    ensures Led.Writes(Lights(refused))
         == [[BusyColor]]
            + (if refused
               then [[AlertColor], [Led.AmbientColor], [AlertColor], [Led.AmbientColor],
                     [AlertColor], [Led.AmbientColor]]
               else [])
            + [[Led.AmbientColor]]
  {
    var busy := SetLedState(Some(BusyColor));
    var idle := SetLedState(None);
    var middle: seq<Led.LedState> := if refused then ErrToggle() else [];
    Led.WritesAppend(busy + middle, idle);
    Led.WritesAppend(busy, middle);
    assert Led.Writes(busy) == [[BusyColor]] by {
      assert busy[1..][1..] == [];
    }
    assert Led.Writes(idle) == [[Led.AmbientColor]] by {
      assert idle[1..][1..] == [];
    }
    if refused {
      ErrToggleWrites();
    }
  }

  /** Each event makes the LED driver write busy first and the ambient colour last,
      with the error flashes between exactly when the event is refused. */
  lemma StepLights(s: TillState, ev: InputEvent)
    ensures Led.Writes(Step(s, ev).leds)
         == [[BusyColor]]
            + (if Refused(s, ev)
               then [[AlertColor], [Led.AmbientColor], [AlertColor], [Led.AmbientColor],
                     [AlertColor], [Led.AmbientColor]]
               else [])
            + [[Led.AmbientColor]]
  {
    LightsWrites(Refused(s, ev));
  }

  // ---------------------------------------------------------------------------
  // The price addition as written

  /** `current_price + price as u16` as the firmware computes it: `u16` addition,
      which wraps round in a build without overflow checks. */
  function WrappingAdd(a: u16, b: u16): (r: u16)
    ensures a + b < U16_LIMIT ==> r == a + b
    ensures a + b >= U16_LIMIT ==> r == a + b - U16_LIMIT
  {
    (a + b) % U16_LIMIT
  }

  /** `main_state`'s loop as written: the cap is checked against, and the total set
      to, the wrapped `u16` sum. */
  function StepAsWritten(s: TillState, ev: InputEvent): (e: Effects)
    ensures !ev.ProduceButtonPressed? ==> e == Step(s, ev)
  {
    match ev
    case ProduceButtonPressed(image, price) => Produce(s, image, price, WrappingAdd(Opening(s), price))
    case _ => Step(s, ev)
  }

  /** When the sum cannot wrap, and in particular from every valid state with a price
      below 64537, the firmware as written agrees with `Step`. */
  lemma AsWrittenAgrees(s: TillState, ev: InputEvent)
    requires ev.ProduceButtonPressed? ==> Opening(s) + ev.price < U16_LIMIT
    ensures StepAsWritten(s, ev) == Step(s, ev)
  {
  }

  /** Inside a transaction owing 1, a price of 65535 wraps the sum to 0: the firmware
      as written accepts the line and forgets what was owed, where `Step` refuses it. */
  lemma WrapAcceptsOverCap()
    ensures var s := TillState(true, 1);
            var ev := ProduceButtonPressed(Printer.Garlic, 65535);
            && StepAsWritten(s, ev).state == TillState(true, 0)
            && StepAsWritten(s, ev).prints == [Printer.PrintLine(Printer.Garlic, 65535)]
            && Refused(s, ev)
            && Step(s, ev).state == s
            && Step(s, ev).prints == []
  {
    var s := TillState(true, 1);
    assert WrappingAdd(1, 65535) == 0;
  }

  // ---------------------------------------------------------------------------
  // The buttons the firmware wires up

  /** The eight produce buttons, in key order: the item drawn and its price. */
  const Buttons: seq<InputEvent> := [
    ProduceButtonPressed(Printer.Garlic, 1),
    ProduceButtonPressed(Printer.Carrot, 2),
    ProduceButtonPressed(Printer.Corn, 3),
    ProduceButtonPressed(Printer.Tomato, 4),
    ProduceButtonPressed(Printer.Mushroom, 5),
    ProduceButtonPressed(Printer.Aubergine, 6),
    ProduceButtonPressed(Printer.Pumpkin, 7),
    ProduceButtonPressed(Printer.Croissant, 8)
  ]

  /** The events the buttons can raise. */
  predicate ButtonEvent(ev: InputEvent)
  {
    ev in Buttons || ev.VoidButtonPressed? || ev.TotalButtonPressed?
  }

  /** From any valid state every button is handled the same by the firmware as
      written and by `Step`: the wrap cannot be reached from the keys. */
  lemma ButtonsNeverWrap(s: TillState, ev: InputEvent)
    requires Valid(s) && ButtonEvent(ev)
    ensures StepAsWritten(s, ev) == Step(s, ev)
  {
    if ev.ProduceButtonPressed? {
      assert ev.price <= 8;
      AsWrittenAgrees(s, ev);
    }
  }
}
