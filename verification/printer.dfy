/** The printer driver's rendering: the glyph for each price character, the five
    price slots of `images_from_price`, and the line and total compositions the
    driver prints. Glyph bitmaps are a parameter `glyphs: Images -> Image`. */
module Printer {
  import opened Base
  import Framebuffer

  /** The embedded bitmaps, one per picture the firmware was built with. */
  datatype Images =
    | Space | X | Pound
    | Zero | One | Two | Three | Four | Five | Six | Seven | Eight | Nine
    | Header | Footer | Void
    | Garlic | Carrot | Corn | Tomato | Mushroom | Aubergine | Pumpkin | Croissant
    | Banana | Juice

  /** The digit glyphs, indexed by the digit they show. */
  const DigitImages: seq<Images> := [Zero, One, Two, Three, Four, Five, Six, Seven, Eight, Nine]

  // ---------------------------------------------------------------------------
  // image_from_char

  /** The characters `image_from_char` has a glyph for; any other one panics. */
  predicate SupportedChar(c: char)
  {
    c == ' ' || c == 'x' || c == '£' || '0' <= c <= '9'
  }

  /** `image_from_char`: the glyph drawn for a supported character. */
  function ImageFromChar(c: char): (img: Images)
    requires SupportedChar(c)
    ensures '0' <= c <= '9' ==> img == DigitImages[c as int - '0' as int]
    ensures GlyphChar(img) == Some(c)
  {
    match c
    case ' ' => Space
    case 'x' => X
    case '£' => Pound
    case '1' => One
    case '2' => Two
    case '3' => Three
    case '4' => Four
    case '5' => Five
    case '6' => Six
    case '7' => Seven
    case '8' => Eight
    case '9' => Nine
    case '0' => Zero
  }

  /** The character a glyph stands for, if it is one `image_from_char` returns. */
  function GlyphChar(img: Images): (c: Option<char>)
    ensures c.Some? ==> SupportedChar(c.value)
  {
    match img
    case Space => Some(' ')
    case X => Some('x')
    case Pound => Some('£')
    case Zero => Some('0')
    case One => Some('1')
    case Two => Some('2')
    case Three => Some('3')
    case Four => Some('4')
    case Five => Some('5')
    case Six => Some('6')
    case Seven => Some('7')
    case Eight => Some('8')
    case Nine => Some('9')
    case _ => None
  }

  /** Only the glyphs `image_from_char` returns stand for a character, and
      `image_from_char` gives each of them back from its character. */
  lemma GlyphCharInverse(img: Images)
    ensures GlyphChar(img).Some? <==> img in [Space, X, Pound] + DigitImages
    ensures GlyphChar(img).Some? ==> ImageFromChar(GlyphChar(img).value) == img
  {
    if GlyphChar(img).Some? {
      var c := GlyphChar(img).value;
      assert GlyphChar(ImageFromChar(c)) == Some(c);
    }
  }

  /** `char::from_digit(d, 10)`: the decimal digit character, `None` from 10 on. */
  function FromDigit(d: nat): (c: Option<char>)
    ensures c.Some? <==> d < 10
    ensures c.Some? ==> SupportedChar(c.value) && ImageFromChar(c.value) == DigitImages[d]
  {
    if d < 10 then Some(('0' as int + d) as char) else None
  }

  // ---------------------------------------------------------------------------
  // images_from_price

  /** The number of price slots. */
  const PriceSlots: nat := 5

  /** The slots before the loop runs: five `Space`s. */
  const BlankSlots: seq<Images> := [Space, Space, Space, Space, Space]

  /** Iteration `i` onwards of the loop in `images_from_price`, with the slots
      filled so far and the part of the price not yet written. */
  function PriceLoop(images: seq<Images>, remaining: nat, i: nat): (r: seq<Images>)
    requires |images| == PriceSlots && i <= PriceSlots
    ensures |r| == PriceSlots
    ensures forall k :: 0 <= k < i ==> r[k] == images[k]
    decreases PriceSlots - i
  {
    if i == PriceSlots then images
    else if remaining == 0 then images[i := Pound]
    else
      var digit := remaining % 10;
      PriceLoop(images[i := ImageFromChar(FromDigit(digit).value)], remaining / 10, i + 1)
  }

  /** `images_from_price`: five `Space`s overwritten, least significant digit first,
      by the price's digits and then a `Pound`. */
  function ImagesFromPrice(price: u16): (r: seq<Images>)
    ensures |r| == PriceSlots
  {
    PriceLoop(BlankSlots, price, 0)
  }

  /** The number of decimal digits of `n`; zero has none. */
  function NumDigits(n: nat): nat
  {
    if n == 0 then 0 else 1 + NumDigits(n / 10)
  }

  /** Decimal digit `i` of `n`, counting from the least significant. */
  function Digit(n: nat, i: nat): (d: nat)
    ensures d < 10
  {
    if i == 0 then n % 10 else Digit(n / 10, i - 1)
  }

  /** Ten to the power `k`. */
  function Pow10(k: nat): (p: nat)
    ensures p >= 1
  {
    if k == 0 then 1 else 10 * Pow10(k - 1)
  }

  /** Slot `j` of the layout: the price's digits from the least significant, a
      `Pound` after the last of them, and `Space` beyond. */
  function Slot(price: nat, j: nat): Images
  {
    if j < NumDigits(price) then DigitImages[Digit(price, j)]
    else if j == NumDigits(price) then Pound
    else Space
  }

  /** One iteration that writes a digit: the digit's glyph in slot `i`, then the
      rest of the loop on the remaining digits. */
  lemma PriceLoopStep(images: seq<Images>, remaining: nat, i: nat)
    requires |images| == PriceSlots && i < PriceSlots && remaining > 0
    ensures PriceLoop(images, remaining, i)
         == PriceLoop(images[i := DigitImages[remaining % 10]], remaining / 10, i + 1)
  {
    assert FromDigit(remaining % 10).Some?;
  }

  /** Dropping the least significant digit shifts the layout down one slot. */
  lemma SlotShift(n: nat, j: nat, k: nat)
    requires n > 0 && j == k + 1
    ensures Slot(n, 0) == DigitImages[n % 10]
    ensures Slot(n, j) == Slot(n / 10, k)
  {
  }

  /** Whatever the loop has still to write, slot `j` ends up as `Slot` says. */
  lemma {:induction false} PriceLoopAt(images: seq<Images>, remaining: nat, i: nat, j: nat)
    requires |images| == PriceSlots && i <= PriceSlots && j < PriceSlots
    requires forall k :: i <= k < PriceSlots ==> images[k] == Space
    ensures PriceLoop(images, remaining, i)[j] == if j < i then images[j] else Slot(remaining, j - i)
    decreases PriceSlots - i
  {
    if i < PriceSlots && remaining > 0 {
      var next := images[i := DigitImages[remaining % 10]];
      PriceLoopStep(images, remaining, i);
      PriceLoopAt(next, remaining / 10, i + 1, j);
      var r := PriceLoop(next, remaining / 10, i + 1);
      if j > i {
        assert r[j] == Slot(remaining / 10, j - (i + 1));
        SlotShift(remaining, j - i, j - (i + 1));
      } else if j == i {
        SlotShift(remaining, 1, 0);
        assert r[j] == Slot(remaining, 0);
      } else {
        assert r[j] == images[j];
      }
    }
  }

  /** The layout of `images_from_price`, slot by slot. */
  lemma PriceLayout(price: u16)
    ensures forall j :: 0 <= j < PriceSlots ==> ImagesFromPrice(price)[j] == Slot(price, j)
  {
    forall j | 0 <= j < PriceSlots
      ensures ImagesFromPrice(price)[j] == Slot(price, j)
    {
      PriceSlotAt(price, j);
    }
  }

  /** Slot `j` of `images_from_price`. */
  lemma PriceSlotAt(price: u16, j: nat)
    requires j < PriceSlots
    ensures ImagesFromPrice(price)[j] == Slot(price, j)
  {
    PriceLoopAt(BlankSlots, price, 0, j);
  }

  /** Every slot holds a glyph that `image_from_char` returns for some character,
      so the `unwrap` of `from_digit` and the panic branch are never reached. */
  lemma PriceSlotsPrintable(price: u16)
    ensures forall j :: 0 <= j < PriceSlots ==> GlyphChar(ImagesFromPrice(price)[j]).Some?
  {
    PriceLayout(price);
    forall j | 0 <= j < PriceSlots
      ensures GlyphChar(Slot(price, j)).Some?
    {
      if j < NumDigits(price) {
        GlyphCharInverse(DigitImages[Digit(price, j)]);
      }
    }
  }

  /** A zero price is a lone `Pound` in the rightmost slot. */
  lemma PriceZero()
    ensures ImagesFromPrice(0) == [Pound, Space, Space, Space, Space]
  {
    PriceLayout(0);
  }

  /** `n` has at most `k` digits exactly when it is below `10^k`. */
  lemma {:induction false} NumDigitsBound(n: nat, k: nat)
    ensures NumDigits(n) <= k <==> n < Pow10(k)
    decreases k
  {
    if n > 0 && k > 0 {
      NumDigitsBound(n / 10, k - 1);
      assert n / 10 < Pow10(k - 1) <==> n < 10 * Pow10(k - 1);
    }
  }

  /** The layout puts `Pound` in exactly one place: right after the digits. */
  lemma SlotIsPound(price: nat, j: nat)
    ensures Slot(price, j) == Pound <==> j == NumDigits(price)
  {
    if j < NumDigits(price) {
      var d := Digit(price, j);
      assert DigitImages[d] in DigitImages;
    }
  }

  /** `Pound` appears at most once, and it appears exactly when the price has
      fewer than five digits. */
  lemma PoundPlacement(price: u16)
    ensures forall i, j :: 0 <= i < j < PriceSlots ==>
              !(ImagesFromPrice(price)[i] == Pound && ImagesFromPrice(price)[j] == Pound)
    ensures Pound in ImagesFromPrice(price) <==> price < 10000
  {
    PriceLayout(price);
    NumDigitsBound(price, 4);
    var r := ImagesFromPrice(price);
    forall j | 0 <= j < PriceSlots ensures r[j] == Pound <==> j == NumDigits(price) {
      SlotIsPound(price, j);
    }
    if price < 10000 {
      assert r[NumDigits(price)] == Pound;
    }
  }

  /** The value of the digit glyph `img`, if it is one. */
  function DigitOf(img: Images): Option<nat>
  {
    match img
    case Zero => Some(0)
    case One => Some(1)
    case Two => Some(2)
    case Three => Some(3)
    case Four => Some(4)
    case Five => Some(5)
    case Six => Some(6)
    case Seven => Some(7)
    case Eight => Some(8)
    case Nine => Some(9)
    case _ => None
  }

  /** The number read off the slots, least significant digit first, up to the first
      slot that is not a digit. */
  function DecodeSlots(slots: seq<Images>): nat
  {
    if |slots| == 0 then 0
    else match DigitOf(slots[0])
      case None => 0
      case Some(d) => d + 10 * DecodeSlots(slots[1..])
  }

  /** Each digit glyph reads back as its own digit. */
  lemma DigitOfDigitImage(d: nat)
    requires d < 10
    ensures DigitOf(DigitImages[d]) == Some(d)
  {
  }

  /** Reading a leading digit glyph: its value plus ten times the rest. */
  lemma DecodeSlotsCons(slots: seq<Images>, d: nat)
    requires |slots| > 0 && DigitOf(slots[0]) == Some(d)
    ensures DecodeSlots(slots) == d + 10 * DecodeSlots(slots[1..])
  {
  }

  /** Dropping one more element of a suffix; `DecodeDigitStep` needs it. */
  lemma SuffixTail<T>(s: seq<T>, i: nat)
    requires i < |s|
    ensures s[i..][1..] == s[i + 1..]
  {
  }

  /** Reading back the slots from `i` on gives the part of the price that iteration
      `i` still had to write. */
  lemma {:induction false} PriceLoopDecodes(images: seq<Images>, remaining: nat, i: nat)
    requires |images| == PriceSlots && i <= PriceSlots
    requires forall k :: i <= k < PriceSlots ==> images[k] == Space
    requires remaining < Pow10(PriceSlots - i)
    ensures DecodeSlots(PriceLoop(images, remaining, i)[i..]) == remaining
    decreases PriceSlots - i
  {
    var r := PriceLoop(images, remaining, i);
    if i == PriceSlots {
    } else if remaining == 0 {
      assert r == images[i := Pound];
      assert r[i..][0] == Pound;
    } else {
      assert Pow10(PriceSlots - i) == 10 * Pow10(PriceSlots - (i + 1));
      PriceLoopDecodes(images[i := DigitImages[remaining % 10]], remaining / 10, i + 1);
      DecodeDigitStep(images, remaining, i);
    }
  }

  /** One digit-writing iteration: its digit is read first, then whatever the rest
      of the loop wrote. */
  lemma DecodeDigitStep(images: seq<Images>, remaining: nat, i: nat)
    requires |images| == PriceSlots && i < PriceSlots && remaining > 0
    requires forall k :: i <= k < PriceSlots ==> images[k] == Space
    requires DecodeSlots(PriceLoop(images[i := DigitImages[remaining % 10]], remaining / 10, i + 1)[i + 1..])
             == remaining / 10
    ensures DecodeSlots(PriceLoop(images, remaining, i)[i..]) == remaining
  {
    var d := remaining % 10;
    var next := images[i := DigitImages[d]];
    PriceLoopStep(images, remaining, i);
    PriceLoopAt(next, remaining / 10, i + 1, i);
    var r := PriceLoop(images, remaining, i);
    var tail := r[i..];
    assert tail[0] == DigitImages[d];
    SuffixTail(r, i);
    DigitOfDigitImage(d);
    DecodeSlotsCons(tail, d);
    assert DecodeSlots(tail) == d + 10 * (remaining / 10);
  }

  /** Round trip: the digit slots read back as the price, for every `u16`. */
  lemma PriceRoundTrip(price: u16)
    ensures DecodeSlots(ImagesFromPrice(price)) == price
  {
    var r := ImagesFromPrice(price);
    PriceLoopDecodes(BlankSlots, price, 0);
    assert r[0..] == r;
  }

  // ---------------------------------------------------------------------------
  // Glyph placement

  /** The gap left between neighbouring price glyphs. */
  const GlyphGap: nat := 5

  /** How far the cursor moves left over `imgs`: each width plus the gap. */
  function Advance(imgs: seq<Framebuffer.Image>): nat
  {
    if |imgs| == 0 then 0 else imgs[0].width + GlyphGap + Advance(imgs[1..])
  }

  lemma {:induction false} AdvanceSplit(imgs: seq<Framebuffer.Image>, i: nat)
    requires i <= |imgs|
    ensures Advance(imgs) == Advance(imgs[..i]) + Advance(imgs[i..])
    decreases i
  {
    if i > 0 {
      AdvanceSplit(imgs[1..], i - 1);
      assert imgs[..i][1..] == imgs[1..][..i - 1];
      assert imgs[1..][i - 1..] == imgs[i..];
    } else {
      assert imgs[i..] == imgs;
    }
  }

  /** What the placement loop needs: a buffer and glyphs `blit_image` accepts, and a
      cursor that stays a `u16` all the way (the subtraction would underflow
      otherwise). */
  predicate Placeable(fb: Framebuffer.Image, imgs: seq<Framebuffer.Image>, curX: nat, y: u16)
  {
    && Framebuffer.WellFormed(fb) && fb.width + 7 < U16_LIMIT
    && (forall i :: 0 <= i < |imgs| ==>
          Framebuffer.WellFormed(imgs[i]) && imgs[i].width + 7 < U16_LIMIT
          && y + imgs[i].height <= U16_LIMIT)
    && Advance(imgs) <= curX < U16_LIMIT
  }

  /** After the first glyph is placed the rest of the loop is placeable too. */
  lemma PlaceableTail(fb: Framebuffer.Image, imgs: seq<Framebuffer.Image>, curX: nat, y: u16)
    requires Placeable(fb, imgs, curX, y) && |imgs| > 0
    ensures Framebuffer.BlitArgs(fb, imgs[0], (curX - imgs[0].width) as u16, y)
    ensures Placeable(Framebuffer.Blit(fb, imgs[0], (curX - imgs[0].width) as u16, y),
                      imgs[1..], curX - (imgs[0].width + GlyphGap), y)
  {
    forall i | 0 <= i < |imgs| - 1
      ensures Framebuffer.WellFormed(imgs[1..][i]) && imgs[1..][i].width + 7 < U16_LIMIT
              && y + imgs[1..][i].height <= U16_LIMIT
    {
      assert imgs[1..][i] == imgs[i + 1];
    }
  }

  /** The driver's placement loop: each glyph is blitted with its right edge at the
      cursor, and the cursor then moves left by its width and the gap. */
  function PlaceGlyphs(fb: Framebuffer.Image, imgs: seq<Framebuffer.Image>, curX: nat, y: u16): (r: Framebuffer.Image)
    requires Placeable(fb, imgs, curX, y)
    ensures Framebuffer.WellFormed(r) && r.width == fb.width && r.height == fb.height
    decreases |imgs|
  {
    if |imgs| == 0 then fb
    else
      var img := imgs[0];
      PlaceableTail(fb, imgs, curX, y);
      PlaceGlyphs(Framebuffer.Blit(fb, img, (curX - img.width) as u16, y), imgs[1..], curX - (img.width + GlyphGap), y)
  }

  /** The left edge of glyph `i`: the start minus the advance over the glyphs before
      it, minus its own width. */
  function LeftEdge(imgs: seq<Framebuffer.Image>, start: nat, i: nat): int
    requires i < |imgs|
  {
    start - Advance(imgs[..i]) - imgs[i].width
  }

  /** Glyph `i + 1` ends a gap to the left of glyph `i`, so slot 0 is rightmost and
      the edges strictly decrease; every glyph lies within `[start - Advance, start)`. */
  lemma GlyphEdges(imgs: seq<Framebuffer.Image>, start: nat, i: nat)
    requires i < |imgs|
    ensures start - Advance(imgs) + GlyphGap <= LeftEdge(imgs, start, i)
    ensures LeftEdge(imgs, start, i) + imgs[i].width <= start
    ensures i + 1 < |imgs| ==>
              LeftEdge(imgs, start, i + 1) + imgs[i + 1].width + GlyphGap == LeftEdge(imgs, start, i)
  {
    AdvanceSplit(imgs, i);
    AdvanceSplit(imgs[i..], 1);
    assert imgs[i..][..1] == [imgs[i]];
    assert imgs[i..][1..] == imgs[i + 1..];
    if i + 1 < |imgs| {
      AdvanceSplit(imgs[..i + 1], i);
      assert imgs[..i + 1][..i] == imgs[..i];
      assert imgs[..i + 1][i..] == [imgs[i]];
    }
  }

  /** Placing a non-empty run: the first glyph, then the rest from the moved cursor. */
  lemma PlaceGlyphsCons(fb: Framebuffer.Image, imgs: seq<Framebuffer.Image>, curX: nat, y: u16)
    requires Placeable(fb, imgs, curX, y) && |imgs| > 0
    ensures Advance(imgs) == imgs[0].width + GlyphGap + Advance(imgs[1..])
    ensures Framebuffer.BlitArgs(fb, imgs[0], (curX - imgs[0].width) as u16, y)
    ensures var next := Framebuffer.Blit(fb, imgs[0], (curX - imgs[0].width) as u16, y);
            && Placeable(next, imgs[1..], curX - (imgs[0].width + GlyphGap), y)
            && PlaceGlyphs(fb, imgs, curX, y) == PlaceGlyphs(next, imgs[1..], curX - (imgs[0].width + GlyphGap), y)
  {
    PlaceableTail(fb, imgs, curX, y);
  }

  /** The first glyph's pixels survive the rest of the loop, which draws further left. */
  lemma FirstGlyphVisible(fb: Framebuffer.Image, imgs: seq<Framebuffer.Image>, curX: nat, y: u16, x: nat, yy: nat)
    requires Placeable(fb, imgs, curX, y) && |imgs| > 0
    requires x < imgs[0].width && yy < imgs[0].height && y + yy < fb.height
    requires curX - imgs[0].width + x < fb.width
    ensures Framebuffer.RawBit(PlaceGlyphs(fb, imgs, curX, y), curX - imgs[0].width + x, y + yy)
         == Framebuffer.Pixel(imgs[0], x, yy)
  {
    PlaceGlyphsCons(fb, imgs, curX, y);
    BlitThenPlace(fb, imgs[0], imgs[1..], curX, y, x, yy);
  }

  /** A glyph blitted with its right edge at the cursor, followed by the rest of the
      loop from the moved cursor: the glyph's pixels are still there. */
  lemma BlitThenPlace(fb: Framebuffer.Image, img: Framebuffer.Image, rest: seq<Framebuffer.Image>, curX: nat, y: u16, x: nat, yy: nat)
    requires img.width + GlyphGap <= curX < U16_LIMIT
    requires Framebuffer.BlitArgs(fb, img, (curX - img.width) as u16, y)
    requires Placeable(Framebuffer.Blit(fb, img, (curX - img.width) as u16, y), rest, curX - (img.width + GlyphGap), y)
    requires x < img.width && yy < img.height && y + yy < fb.height
    requires curX - img.width + x < fb.width
    ensures Framebuffer.RawBit(PlaceGlyphs(Framebuffer.Blit(fb, img, (curX - img.width) as u16, y), rest, curX - (img.width + GlyphGap), y),
                               curX - img.width + x, y + yy)
         == Framebuffer.Pixel(img, x, yy)
  {
    GlyphBlitted(fb, img, curX, y, x, yy);
    PlaceGlyphsRightOfStart(Framebuffer.Blit(fb, img, (curX - img.width) as u16, y), rest, curX - (img.width + GlyphGap), y,
                            curX - img.width + x, y as nat + yy);
  }

  /** The glyph blitted with its right edge at the cursor shows its pixels there. */
  lemma GlyphBlitted(fb: Framebuffer.Image, img: Framebuffer.Image, curX: nat, y: u16, x: nat, yy: nat)
    requires img.width <= curX < U16_LIMIT
    requires Framebuffer.BlitArgs(fb, img, (curX - img.width) as u16, y)
    requires x < img.width && yy < img.height && y + yy < fb.height
    requires curX - img.width + x < fb.width
    ensures Framebuffer.RawBit(Framebuffer.Blit(fb, img, (curX - img.width) as u16, y), curX - img.width + x, y + yy)
         == Framebuffer.Pixel(img, x, yy)
  {
    Framebuffer.BlitOverwrites(fb, img, (curX - img.width) as u16, y, x, yy);
  }

  /** Each glyph's pixels are in the result at its left edge: later glyphs lie
      further left and never cover it. */
  lemma {:induction false} GlyphVisible(fb: Framebuffer.Image, imgs: seq<Framebuffer.Image>, curX: nat, y: u16, i: nat, x: nat, yy: nat)
    requires Placeable(fb, imgs, curX, y)
    requires i < |imgs| && x < imgs[i].width && yy < imgs[i].height && y + yy < fb.height
    requires LeftEdge(imgs, curX, i) + x < fb.width
    ensures LeftEdge(imgs, curX, i) >= 0
    ensures Framebuffer.RawBit(PlaceGlyphs(fb, imgs, curX, y), LeftEdge(imgs, curX, i) + x, y + yy)
         == Framebuffer.Pixel(imgs[i], x, yy)
    decreases i, 1
  {
    GlyphEdges(imgs, curX, i);
    if i == 0 {
      assert LeftEdge(imgs, curX, 0) == curX - imgs[0].width by {
        assert imgs[..0] == [];
      }
      FirstGlyphVisible(fb, imgs, curX, y, x, yy);
    } else {
      LaterGlyphVisible(fb, imgs, curX, y, i, x, yy);
    }
  }

  /** A later glyph is where the rest of the loop, started from the moved cursor,
      puts it. */
  lemma {:induction false} LaterGlyphVisible(fb: Framebuffer.Image, imgs: seq<Framebuffer.Image>, curX: nat, y: u16, i: nat, x: nat, yy: nat)
    requires Placeable(fb, imgs, curX, y)
    requires 0 < i < |imgs| && x < imgs[i].width && yy < imgs[i].height && y + yy < fb.height
    requires 0 <= LeftEdge(imgs, curX, i) && LeftEdge(imgs, curX, i) + x < fb.width
    ensures Framebuffer.RawBit(PlaceGlyphs(fb, imgs, curX, y), LeftEdge(imgs, curX, i) + x, y + yy)
         == Framebuffer.Pixel(imgs[i], x, yy)
    decreases i, 0
  {
    PlaceGlyphsCons(fb, imgs, curX, y);
    var img := imgs[0];
    var nextX := curX - (img.width + GlyphGap);
    LeftEdgeTail(imgs, curX, i);
    GlyphVisible(Framebuffer.Blit(fb, img, (curX - img.width) as u16, y), imgs[1..], nextX, y, i - 1, x, yy);
  }

  /** Glyph `i > 0` of a run is glyph `i - 1` of the rest, from the moved cursor. */
  lemma LeftEdgeTail(imgs: seq<Framebuffer.Image>, curX: nat, i: nat)
    requires 0 < i < |imgs| && imgs[0].width + GlyphGap <= curX
    ensures imgs[1..][i - 1] == imgs[i]
    ensures LeftEdge(imgs, curX, i) == LeftEdge(imgs[1..], curX - (imgs[0].width + GlyphGap), i - 1)
  {
    assert imgs[..i][0] == imgs[0] && imgs[..i][1..] == imgs[1..][..i - 1];
  }

  // ---------------------------------------------------------------------------
  // What the placement loop leaves alone

  /** Pixel `(dx, dy)` lies in the box glyph `i` is blitted to: from its left edge
      for its width, from row `row` for its height. */
  predicate InGlyphBox(imgs: seq<Framebuffer.Image>, start: nat, row: nat, i: nat, dx: nat, dy: nat)
    requires i < |imgs|
  {
    && LeftEdge(imgs, start, i) <= dx < LeftEdge(imgs, start, i) + imgs[i].width
    && row <= dy < row + imgs[i].height
  }

  /** No glyph's box holds `(dx, dy)`: the gaps between glyphs, the rows below a
      shorter glyph, and everything outside the price band. */
  predicate Uncovered(imgs: seq<Framebuffer.Image>, start: nat, row: nat, dx: nat, dy: nat)
  {
    forall i :: 0 <= i < |imgs| ==> !InGlyphBox(imgs, start, row, i, dx, dy)
  }

  /** A bit past the buffer's width or outside every box is still one after the first
      glyph: past the width or outside that glyph's blit, and past the width or
      outside every box of the rest of the loop from the moved cursor. */
  lemma UncoveredTail(imgs: seq<Framebuffer.Image>, curX: nat, row: nat, width: nat, dx: nat, dy: nat)
    requires |imgs| > 0 && imgs[0].width + GlyphGap <= curX
    requires dx >= width || Uncovered(imgs, curX, row, dx, dy)
    ensures dx >= width || !(curX - imgs[0].width <= dx < curX && row <= dy < row + imgs[0].height)
    ensures dx >= width || Uncovered(imgs[1..], curX - (imgs[0].width + GlyphGap), row, dx, dy)
  {
    if dx < width {
      assert imgs[..0] == [];
      assert !InGlyphBox(imgs, curX, row, 0, dx, dy);
      var rest, nextX := imgs[1..], curX - (imgs[0].width + GlyphGap);
      forall j | 0 <= j < |rest|
        ensures !InGlyphBox(rest, nextX, row, j, dx, dy)
      {
        LeftEdgeTail(imgs, curX, j + 1);
        assert !InGlyphBox(imgs, curX, row, j + 1, dx, dy);
      }
    }
  }

  /** Frame condition: the loop changes no bit outside every glyph's box, so the
      gaps between glyphs and the rows below a shorter glyph keep their value, and
      neither does it change any bit past the buffer's width. */
  lemma {:induction false} PlaceGlyphsUntouched(fb: Framebuffer.Image, imgs: seq<Framebuffer.Image>, curX: nat, y: u16, dx: nat, dy: nat)
    requires Placeable(fb, imgs, curX, y)
    requires dx < 8 * Framebuffer.Stride(fb.width) && dy < fb.height
    requires dx >= fb.width || Uncovered(imgs, curX, y, dx, dy)
    ensures Framebuffer.RawBit(PlaceGlyphs(fb, imgs, curX, y), dx, dy) == Framebuffer.RawBit(fb, dx, dy)
    decreases |imgs|
  {
    if |imgs| > 0 {
      var img := imgs[0];
      PlaceGlyphsCons(fb, imgs, curX, y);
      UncoveredTail(imgs, curX, y, fb.width, dx, dy);
      BlitOutsideBox(fb, img, curX, y, dx, dy);
      var next := Framebuffer.Blit(fb, img, (curX - img.width) as u16, y);
      PlaceGlyphsUntouched(next, imgs[1..], curX - (img.width + GlyphGap), y, dx, dy);
    }
  }

  /** One glyph's blit, with its right edge at the cursor, leaves alone every bit
      outside its box. */
  lemma BlitOutsideBox(fb: Framebuffer.Image, img: Framebuffer.Image, curX: nat, y: u16, dx: nat, dy: nat)
    requires img.width <= curX < U16_LIMIT
    requires Framebuffer.BlitArgs(fb, img, (curX - img.width) as u16, y)
    requires dx < 8 * Framebuffer.Stride(fb.width) && dy < fb.height
    requires dx >= fb.width || !(curX - img.width <= dx < curX && y <= dy < y + img.height)
    ensures Framebuffer.RawBit(Framebuffer.Blit(fb, img, (curX - img.width) as u16, y), dx, dy)
         == Framebuffer.RawBit(fb, dx, dy)
  {
    Framebuffer.BlitKeepsUncovered(fb, img, (curX - img.width) as u16, y, dx, dy);
  }

  /** The loop changes no bit right of the column it starts from. */
  lemma PlaceGlyphsRightOfStart(fb: Framebuffer.Image, imgs: seq<Framebuffer.Image>, curX: nat, y: u16, dx: nat, dy: nat)
    requires Placeable(fb, imgs, curX, y)
    requires dx < 8 * Framebuffer.Stride(fb.width) && dy < fb.height && dx >= curX
    ensures Framebuffer.RawBit(PlaceGlyphs(fb, imgs, curX, y), dx, dy) == Framebuffer.RawBit(fb, dx, dy)
  {
    BandUncovered(imgs, curX, y, dx, dy);
    PlaceGlyphsUntouched(fb, imgs, curX, y, dx, dy);
  }

  /** Bits right of the start column, above the row, or left of the last glyph lie in
      no glyph's box. */
  lemma BandUncovered(imgs: seq<Framebuffer.Image>, start: nat, row: nat, dx: nat, dy: nat)
    requires dx >= start || dy < row || dx + Advance(imgs) < start + GlyphGap
    ensures Uncovered(imgs, start, row, dx, dy)
  {
    forall i | 0 <= i < |imgs|
      ensures !InGlyphBox(imgs, start, row, i, dx, dy)
    {
      GlyphEdges(imgs, start, i);
    }
  }

  // ---------------------------------------------------------------------------
  // The driver's framebuffer and its two compositions

  /** The driver's framebuffer: 384 by 238 pixels. */
  const FbWidth: u16 := 384
  const FbHeight: u16 := 238
  const FramebufferSize: nat := (384 / 8) * 238

  /** The line render's cursor starts this far left of the right edge. */
  const LineMargin: nat := 10
  /** The line render prints only this many top rows. */
  const LineRows: u16 := 80
  /** The total render's cursor starts this far left of the right edge. */
  const TotalMargin: nat := 20
  /** The total render draws the price glyphs from this row down. */
  const TotalRow: u16 := 90

  predicate IsFramebuffer(fb: Framebuffer.Image)
  {
    fb.width == FbWidth && fb.height == FbHeight && |fb.data| == FramebufferSize
  }

  /** The glyph bitmaps are well formed and small enough for `blit_image` at any row
      the driver draws them on. */
  predicate GlyphsFit(glyphs: Images -> Framebuffer.Image)
  {
    forall img :: Framebuffer.WellFormed(glyphs(img)) && glyphs(img).width + 7 < U16_LIMIT
                  && TotalRow + glyphs(img).height <= U16_LIMIT
  }

  /** The bitmaps of a price's slots, slot 0 (rightmost) first. */
  function PriceGlyphs(glyphs: Images -> Framebuffer.Image, slots: seq<Images>): (imgs: seq<Framebuffer.Image>)
    ensures |imgs| == |slots|
    ensures forall i :: 0 <= i < |slots| ==> imgs[i] == glyphs(slots[i])
  {
    seq(|slots|, i requires 0 <= i < |slots| => glyphs(slots[i]))
  }

  /** The price glyphs fit left of a cursor starting `margin` left of the right edge. */
  predicate PriceFits(glyphs: Images -> Framebuffer.Image, slots: seq<Images>, margin: nat)
  {
    Advance(PriceGlyphs(glyphs, slots)) + margin <= FbWidth
  }

  /** What clearing, blitting `item` at the origin and placing `imgs` from `start`
      on `row` need. */
  predicate Composable(fb: Framebuffer.Image, item: Framebuffer.Image, imgs: seq<Framebuffer.Image>, start: nat, row: u16)
  {
    && Framebuffer.WellFormed(fb)
    && Framebuffer.BlitArgs(Framebuffer.Clear(fb), item, 0, 0)
    && Placeable(Framebuffer.Blit(Framebuffer.Clear(fb), item, 0, 0), imgs, start, row)
  }

  /** Both render paths: clear, blit the item (or footer) at the top left, then place
      the price glyphs right to left from `start` on row `row`. */
  function Compose(fb: Framebuffer.Image, item: Framebuffer.Image, imgs: seq<Framebuffer.Image>, start: nat, row: u16): (r: Framebuffer.Image)
    requires Composable(fb, item, imgs, start, row)
    ensures Framebuffer.WellFormed(r) && r.width == fb.width && r.height == fb.height
  {
    PlaceGlyphs(Framebuffer.Blit(Framebuffer.Clear(fb), item, 0, 0), imgs, start, row)
  }

  /** A bit of the buffer after clearing and blitting `src` at the origin: the
      source pixel under it, or blank. */
  lemma ClearThenBlit(fb: Framebuffer.Image, src: Framebuffer.Image, dx: nat, dy: nat)
    requires Framebuffer.WellFormed(fb) && Framebuffer.BlitArgs(Framebuffer.Clear(fb), src, 0, 0)
    requires dx < fb.width && dy < fb.height
    ensures Framebuffer.RawBit(Framebuffer.Blit(Framebuffer.Clear(fb), src, 0, 0), dx, dy)
         == (dx < src.width && dy < src.height && Framebuffer.Pixel(src, dx, dy))
  {
    var cleared := Framebuffer.Clear(fb);
    if dx < src.width && dy < src.height {
      Framebuffer.BlitOverwrites(cleared, src, 0, 0, dx, dy);
    } else {
      Framebuffer.BlitKeepsUncovered(cleared, src, 0, 0, dx, dy);
      Framebuffer.ClearedIsBlank(fb, dx, dy);
    }
  }

  /** Every placed glyph shows in the composition at its left edge. */
  lemma ComposedGlyphVisible(fb: Framebuffer.Image, item: Framebuffer.Image, imgs: seq<Framebuffer.Image>, start: nat, row: u16, i: nat, x: nat, y: nat)
    requires Composable(fb, item, imgs, start, row) && start <= fb.width
    requires i < |imgs| && x < imgs[i].width && y < imgs[i].height && row + y < fb.height
    ensures LeftEdge(imgs, start, i) >= 0
    ensures Framebuffer.RawBit(Compose(fb, item, imgs, start, row), LeftEdge(imgs, start, i) + x, row + y)
         == Framebuffer.Pixel(imgs[i], x, y)
  {
    GlyphEdges(imgs, start, i);
    GlyphVisible(Framebuffer.Blit(Framebuffer.Clear(fb), item, 0, 0), imgs, start, row, i, x, y);
  }

  /** Outside every glyph's box, the composition is the item on a blank buffer. */
  lemma ComposedItemVisible(fb: Framebuffer.Image, item: Framebuffer.Image, imgs: seq<Framebuffer.Image>, start: nat, row: u16, dx: nat, dy: nat)
    requires Composable(fb, item, imgs, start, row)
    requires dx < fb.width && dy < fb.height
    requires Uncovered(imgs, start, row, dx, dy)
    ensures Framebuffer.RawBit(Compose(fb, item, imgs, start, row), dx, dy)
         == (dx < item.width && dy < item.height && Framebuffer.Pixel(item, dx, dy))
  {
    PlaceGlyphsUntouched(Framebuffer.Blit(Framebuffer.Clear(fb), item, 0, 0), imgs, start, row, dx, dy);
    ClearThenBlit(fb, item, dx, dy);
  }

  /** The driver's glyphs and a price that fits leave the composition well defined. */
  lemma ComposableFramebuffer(fb: Framebuffer.Image, glyphs: Images -> Framebuffer.Image, item: Images, slots: seq<Images>, margin: nat, row: u16)
    requires IsFramebuffer(fb) && GlyphsFit(glyphs) && PriceFits(glyphs, slots, margin) && row <= TotalRow
    ensures Composable(fb, glyphs(item), PriceGlyphs(glyphs, slots), FbWidth - margin, row)
  {
  }

  /** The buffer after the `PrintLine` branch: cleared, the item at the top left,
      the price glyphs right to left from 10 pixels in from the right edge. */
  function ComposeLine(fb: Framebuffer.Image, glyphs: Images -> Framebuffer.Image, item: Images, slots: seq<Images>): (r: Framebuffer.Image)
    requires IsFramebuffer(fb) && GlyphsFit(glyphs) && PriceFits(glyphs, slots, LineMargin)
    ensures IsFramebuffer(r) && Framebuffer.WellFormed(r)
  {
    ComposableFramebuffer(fb, glyphs, item, slots, LineMargin, 0);
    Compose(fb, glyphs(item), PriceGlyphs(glyphs, slots), FbWidth - LineMargin, 0)
  }

  /** The image `PrintLine` prints: the top 80 rows of the composed buffer. */
  function RenderLine(fb: Framebuffer.Image, glyphs: Images -> Framebuffer.Image, item: Images, slots: seq<Images>): (r: Framebuffer.Image)
    requires IsFramebuffer(fb) && GlyphsFit(glyphs) && PriceFits(glyphs, slots, LineMargin)
    ensures Framebuffer.WellFormed(r) && r.width == FbWidth && r.height == LineRows
  {
    var composed := ComposeLine(fb, glyphs, item, slots);
    Framebuffer.HeadKeepsTopRows(composed, LineRows);
    Framebuffer.Head(composed, LineRows)
  }

  /** The buffer `PrintTotal` prints in full: cleared, the footer at the top left,
      the price glyphs right to left from 20 pixels in, on row 90. */
  function RenderTotal(fb: Framebuffer.Image, glyphs: Images -> Framebuffer.Image, slots: seq<Images>): (r: Framebuffer.Image)
    requires IsFramebuffer(fb) && GlyphsFit(glyphs) && PriceFits(glyphs, slots, TotalMargin)
    ensures IsFramebuffer(r) && Framebuffer.WellFormed(r)
  {
    ComposableFramebuffer(fb, glyphs, Footer, slots, TotalMargin, TotalRow);
    Compose(fb, glyphs(Footer), PriceGlyphs(glyphs, slots), FbWidth - TotalMargin, TotalRow)
  }

  /** The printed line shows price glyph `i` at its left edge. */
  lemma LinePriceVisible(fb: Framebuffer.Image, glyphs: Images -> Framebuffer.Image, item: Images, slots: seq<Images>, i: nat, x: nat, y: nat)
    requires IsFramebuffer(fb) && GlyphsFit(glyphs) && PriceFits(glyphs, slots, LineMargin)
    requires i < |slots| && x < glyphs(slots[i]).width && y < glyphs(slots[i]).height && y < LineRows
    ensures LeftEdge(PriceGlyphs(glyphs, slots), FbWidth - LineMargin, i) >= 0
    ensures Framebuffer.RawBit(RenderLine(fb, glyphs, item, slots),
                               LeftEdge(PriceGlyphs(glyphs, slots), FbWidth - LineMargin, i) + x, y)
         == Framebuffer.Pixel(glyphs(slots[i]), x, y)
  {
    LineGlyphComposed(fb, glyphs, item, slots, i, x, y);
    LineHead(fb, glyphs, item, slots, LeftEdge(PriceGlyphs(glyphs, slots), FbWidth - LineMargin, i) + x, y);
  }

  /** Before the head is cut, the composed line shows price glyph `i` at its left edge. */
  lemma LineGlyphComposed(fb: Framebuffer.Image, glyphs: Images -> Framebuffer.Image, item: Images, slots: seq<Images>, i: nat, x: nat, y: nat)
    requires IsFramebuffer(fb) && GlyphsFit(glyphs) && PriceFits(glyphs, slots, LineMargin)
    requires i < |slots| && x < glyphs(slots[i]).width && y < glyphs(slots[i]).height && y < LineRows
    ensures 0 <= LeftEdge(PriceGlyphs(glyphs, slots), FbWidth - LineMargin, i) < FbWidth - x
    ensures Framebuffer.RawBit(ComposeLine(fb, glyphs, item, slots),
                               LeftEdge(PriceGlyphs(glyphs, slots), FbWidth - LineMargin, i) + x, y)
         == Framebuffer.Pixel(glyphs(slots[i]), x, y)
  {
    ComposableFramebuffer(fb, glyphs, item, slots, LineMargin, 0);
    ComposedGlyphVisible(fb, glyphs(item), PriceGlyphs(glyphs, slots), FbWidth - LineMargin, 0, i, x, y);
  }

  /** The printed line is the composed buffer's top rows, pixel for pixel. */
  lemma LineHead(fb: Framebuffer.Image, glyphs: Images -> Framebuffer.Image, item: Images, slots: seq<Images>, x: nat, y: nat)
    requires IsFramebuffer(fb) && GlyphsFit(glyphs) && PriceFits(glyphs, slots, LineMargin)
    requires x < FbWidth && y < LineRows
    ensures Framebuffer.RawBit(RenderLine(fb, glyphs, item, slots), x, y)
         == Framebuffer.RawBit(ComposeLine(fb, glyphs, item, slots), x, y)
  {
    Framebuffer.HeadKeepsTopRows(ComposeLine(fb, glyphs, item, slots), LineRows);
  }

  /** The printed line shows the item at the top left, on a blank background,
      outside every price glyph's box: in the gaps between glyphs, below a shorter
      glyph, and right of the cursor's start (see `BandUncovered`). */
  lemma LineItemVisible(fb: Framebuffer.Image, glyphs: Images -> Framebuffer.Image, item: Images, slots: seq<Images>, x: nat, y: nat)
    requires IsFramebuffer(fb) && GlyphsFit(glyphs) && PriceFits(glyphs, slots, LineMargin)
    requires x < FbWidth && y < LineRows
    requires Uncovered(PriceGlyphs(glyphs, slots), FbWidth - LineMargin, 0, x, y)
    ensures Framebuffer.RawBit(RenderLine(fb, glyphs, item, slots), x, y)
         == (x < glyphs(item).width && y < glyphs(item).height && Framebuffer.Pixel(glyphs(item), x, y))
  {
    ComposableFramebuffer(fb, glyphs, item, slots, LineMargin, 0);
    ComposedItemVisible(fb, glyphs(item), PriceGlyphs(glyphs, slots), FbWidth - LineMargin, 0, x, y);
    LineHead(fb, glyphs, item, slots, x, y);
  }

  /** `clear` makes a line independent of whatever the buffer held before. */
  lemma LineIgnoresHistory(fb1: Framebuffer.Image, fb2: Framebuffer.Image, glyphs: Images -> Framebuffer.Image, item: Images, slots: seq<Images>)
    requires IsFramebuffer(fb1) && IsFramebuffer(fb2) && GlyphsFit(glyphs) && PriceFits(glyphs, slots, LineMargin)
    ensures RenderLine(fb1, glyphs, item, slots) == RenderLine(fb2, glyphs, item, slots)
  {
    assert Framebuffer.Clear(fb1) == Framebuffer.Clear(fb2);
  }

  /** `clear` makes a total independent of whatever the buffer held before. */
  lemma TotalIgnoresHistory(fb1: Framebuffer.Image, fb2: Framebuffer.Image, glyphs: Images -> Framebuffer.Image, slots: seq<Images>)
    requires IsFramebuffer(fb1) && IsFramebuffer(fb2) && GlyphsFit(glyphs) && PriceFits(glyphs, slots, TotalMargin)
    ensures RenderTotal(fb1, glyphs, slots) == RenderTotal(fb2, glyphs, slots)
  {
    assert Framebuffer.Clear(fb1) == Framebuffer.Clear(fb2);
  }

  /** The printed total shows price glyph `i` at its left edge, from row 90. */
  lemma TotalPriceVisible(fb: Framebuffer.Image, glyphs: Images -> Framebuffer.Image, slots: seq<Images>, i: nat, x: nat, y: nat)
    requires IsFramebuffer(fb) && GlyphsFit(glyphs) && PriceFits(glyphs, slots, TotalMargin)
    requires i < |slots| && x < glyphs(slots[i]).width && y < glyphs(slots[i]).height && TotalRow + y < FbHeight
    ensures LeftEdge(PriceGlyphs(glyphs, slots), FbWidth - TotalMargin, i) >= 0
    ensures Framebuffer.RawBit(RenderTotal(fb, glyphs, slots),
                               LeftEdge(PriceGlyphs(glyphs, slots), FbWidth - TotalMargin, i) + x, TotalRow + y)
         == Framebuffer.Pixel(glyphs(slots[i]), x, y)
  {
    ComposableFramebuffer(fb, glyphs, Footer, slots, TotalMargin, TotalRow);
    ComposedGlyphVisible(fb, glyphs(Footer), PriceGlyphs(glyphs, slots), FbWidth - TotalMargin, TotalRow, i, x, y);
  }

  /** The printed total shows the footer, on a blank background, outside every price
      glyph's box: between and below the digits as well as around them. */
  lemma TotalFooterVisible(fb: Framebuffer.Image, glyphs: Images -> Framebuffer.Image, slots: seq<Images>, x: nat, y: nat)
    requires IsFramebuffer(fb) && GlyphsFit(glyphs) && PriceFits(glyphs, slots, TotalMargin)
    requires x < FbWidth && y < FbHeight
    requires Uncovered(PriceGlyphs(glyphs, slots), FbWidth - TotalMargin, TotalRow, x, y)
    ensures Framebuffer.RawBit(RenderTotal(fb, glyphs, slots), x, y)
         == (x < glyphs(Footer).width && y < glyphs(Footer).height && Framebuffer.Pixel(glyphs(Footer), x, y))
  {
    ComposableFramebuffer(fb, glyphs, Footer, slots, TotalMargin, TotalRow);
    ComposedItemVisible(fb, glyphs(Footer), PriceGlyphs(glyphs, slots), FbWidth - TotalMargin, TotalRow, x, y);
  }

  /** Above row 90 the printed total is exactly the footer. */
  lemma TotalFooterKept(fb: Framebuffer.Image, glyphs: Images -> Framebuffer.Image, slots: seq<Images>, x: nat, y: nat)
    requires IsFramebuffer(fb) && GlyphsFit(glyphs) && PriceFits(glyphs, slots, TotalMargin)
    requires x < FbWidth && y < TotalRow
    ensures Framebuffer.RawBit(RenderTotal(fb, glyphs, slots), x, y)
         == (x < glyphs(Footer).width && y < glyphs(Footer).height && Framebuffer.Pixel(glyphs(Footer), x, y))
  {
    BandUncovered(PriceGlyphs(glyphs, slots), FbWidth - TotalMargin, TotalRow, x, y);
    TotalFooterVisible(fb, glyphs, slots, x, y);
  }

  // ---------------------------------------------------------------------------
  // The driver loop

  datatype DriverEvent = PrintHeader | PrintLine(image: Images, price: u16) | PrintTotal(price: u16) | PrintVoid

  /** What the driver needs of an event: prices whose glyphs fit their render. */
  predicate Printable(glyphs: Images -> Framebuffer.Image, ev: DriverEvent)
  {
    && GlyphsFit(glyphs)
    && (ev.PrintLine? ==> PriceFits(glyphs, ImagesFromPrice(ev.price), LineMargin))
    && (ev.PrintTotal? ==> PriceFits(glyphs, ImagesFromPrice(ev.price), TotalMargin))
  }

  /** One pass of the driver loop: the framebuffer it leaves and the bitmap it prints. */
  datatype Printed = Printed(fb: Framebuffer.Image, image: Framebuffer.Image)

  function Drive(fb: Framebuffer.Image, glyphs: Images -> Framebuffer.Image, ev: DriverEvent): (r: Printed)
    requires IsFramebuffer(fb) && Printable(glyphs, ev)
    ensures IsFramebuffer(r.fb)
    ensures Framebuffer.WellFormed(r.image)
    ensures ev.PrintHeader? ==> r.image == glyphs(Header) && r.fb == fb
    ensures ev.PrintVoid? ==> r.image == glyphs(Void) && r.fb == fb
    ensures ev.PrintLine? ==> r.fb.width % 8 == 0 && LineRows * r.fb.width / 8 <= |r.fb.data|
                              && r.image == Framebuffer.Head(r.fb, LineRows)
    ensures ev.PrintLine? ==> r.fb == ComposeLine(fb, glyphs, ev.image, ImagesFromPrice(ev.price))
                              && r.image == RenderLine(fb, glyphs, ev.image, ImagesFromPrice(ev.price))
    ensures ev.PrintTotal? ==> r.image == r.fb && r.fb == RenderTotal(fb, glyphs, ImagesFromPrice(ev.price))
  {
    match ev
    case PrintHeader => Printed(fb, glyphs(Header))
    case PrintLine(item, price) =>
      var slots := ImagesFromPrice(price);
      Framebuffer.HeadKeepsTopRows(ComposeLine(fb, glyphs, item, slots), LineRows);
      Printed(ComposeLine(fb, glyphs, item, slots), RenderLine(fb, glyphs, item, slots))
    case PrintTotal(price) =>
      var total := RenderTotal(fb, glyphs, ImagesFromPrice(price));
      Printed(total, total)
    case PrintVoid => Printed(fb, glyphs(Void))
  }

  /** The buffer the driver starts with: all zero. */
  const InitialFramebuffer: Framebuffer.Image :=
    Framebuffer.Image(FbWidth, FbHeight, seq(FramebufferSize, _ => 0))

  /** Everything the driver prints for a stream of events, one bitmap per event. */
  function DriveAll(fb: Framebuffer.Image, glyphs: Images -> Framebuffer.Image, evs: seq<DriverEvent>): (printed: seq<Framebuffer.Image>)
    requires IsFramebuffer(fb) && forall i :: 0 <= i < |evs| ==> Printable(glyphs, evs[i])
    ensures |printed| == |evs|
    decreases |evs|
  {
    if |evs| == 0 then []
    else
      var step := Drive(fb, glyphs, evs[0]);
      [step.image] + DriveAll(step.fb, glyphs, evs[1..])
  }

  /** What one event prints does not depend on the buffer it finds: every render
      clears the buffer first, and header and void print fixed bitmaps. */
  lemma DriveIgnoresHistory(fb1: Framebuffer.Image, fb2: Framebuffer.Image, glyphs: Images -> Framebuffer.Image, ev: DriverEvent)
    requires IsFramebuffer(fb1) && IsFramebuffer(fb2) && Printable(glyphs, ev)
    ensures Drive(fb1, glyphs, ev).image == Drive(fb2, glyphs, ev).image
  {
    match ev
    case PrintLine(item, price) => LineIgnoresHistory(fb1, fb2, glyphs, item, ImagesFromPrice(price));
    case PrintTotal(price) => TotalIgnoresHistory(fb1, fb2, glyphs, ImagesFromPrice(price));
    case _ =>
  }

  /** Bitmap `i` of a stream is what event `i` prints from a blank buffer, whatever
      came before it. */
  lemma {:induction false} DriveAllAt(fb: Framebuffer.Image, glyphs: Images -> Framebuffer.Image, evs: seq<DriverEvent>, i: nat)
    requires IsFramebuffer(fb) && forall k :: 0 <= k < |evs| ==> Printable(glyphs, evs[k])
    requires i < |evs|
    ensures DriveAll(fb, glyphs, evs)[i] == Drive(InitialFramebuffer, glyphs, evs[i]).image
    decreases i
  {
    var step := Drive(fb, glyphs, evs[0]);
    if i == 0 {
      DriveIgnoresHistory(fb, InitialFramebuffer, glyphs, evs[0]);
    } else {
      assert forall k :: 0 <= k < |evs| - 1 ==> evs[1..][k] == evs[k + 1];
      DriveAllAt(step.fb, glyphs, evs[1..], i - 1);
    }
  }

  /** Bitmap `i` of a stream, by the kind of event `i`: the header or void glyph, or
      the line or total rendered on a blank buffer. */
  lemma DriveAllPrints(fb: Framebuffer.Image, glyphs: Images -> Framebuffer.Image, evs: seq<DriverEvent>, i: nat)
    requires IsFramebuffer(fb) && forall k :: 0 <= k < |evs| ==> Printable(glyphs, evs[k])
    requires i < |evs|
    ensures evs[i].PrintHeader? ==> DriveAll(fb, glyphs, evs)[i] == glyphs(Header)
    ensures evs[i].PrintVoid? ==> DriveAll(fb, glyphs, evs)[i] == glyphs(Void)
    ensures evs[i].PrintLine? ==>
              DriveAll(fb, glyphs, evs)[i]
              == RenderLine(InitialFramebuffer, glyphs, evs[i].image, ImagesFromPrice(evs[i].price))
    ensures evs[i].PrintTotal? ==>
              DriveAll(fb, glyphs, evs)[i] == RenderTotal(InitialFramebuffer, glyphs, ImagesFromPrice(evs[i].price))
  {
    assert IsFramebuffer(InitialFramebuffer);
    DriveAllAt(fb, glyphs, evs, i);
  }
}
