/** The window style flags of src/window/style.rs: single bits of a `u32` that are
    or-ed together into a style. */
module Styles {

  const NONE: bv32 := 0
  const TITLEBAR: bv32 := 1
  const RESIZE: bv32 := 2
  const CLOSE: bv32 := 4
  const FULLSCREEN: bv32 := 8

  /** `DEFAULT_STYLE`: a title bar, a resize border and a close button. */
  const DEFAULT_STYLE: bv32 := TITLEBAR | RESIZE | CLOSE

  /** A flag is one bit: nonzero, and with no other bit set. */
  predicate IsSingleBit(f: bv32) {
    f != 0 && f & (f - 1) == 0
  }

  /** Whether `style` has every bit of `flag` set. */
  predicate Has(style: bv32, flag: bv32) {
    style & flag == flag
  }

  /** The four flags are distinct single bits, so each can be set and tested on its
      own; the empty style has none of them. */
  lemma FlagsAreSingleBits()
    ensures NONE == 0
    ensures IsSingleBit(TITLEBAR) && IsSingleBit(RESIZE) && IsSingleBit(CLOSE) && IsSingleBit(FULLSCREEN)
    ensures TITLEBAR & RESIZE == 0 && TITLEBAR & CLOSE == 0 && TITLEBAR & FULLSCREEN == 0
    ensures RESIZE & CLOSE == 0 && RESIZE & FULLSCREEN == 0 && CLOSE & FULLSCREEN == 0
    ensures !Has(NONE, TITLEBAR) && !Has(NONE, RESIZE) && !Has(NONE, CLOSE) && !Has(NONE, FULLSCREEN)
  {
  }

  /** The default style is 7: it has the title bar, resize and close flags and not
      the fullscreen one. */
  lemma DefaultStyle()
    ensures DEFAULT_STYLE == 7
    ensures Has(DEFAULT_STYLE, TITLEBAR) && Has(DEFAULT_STYLE, RESIZE) && Has(DEFAULT_STYLE, CLOSE)
    ensures !Has(DEFAULT_STYLE, FULLSCREEN)
  {
  }

  /** Or-ing a flag into a style sets it and leaves every flag that shares no bit
      with it as it was; the four flags are pairwise such flags. */
  lemma SetFlag(style: bv32, flag: bv32, other: bv32)
    requires flag & other == 0
    ensures Has(style | flag, flag)
    ensures Has(style | flag, other) <==> Has(style, other)
  {
    assert (style | flag) & other == style & other;
  }
}
