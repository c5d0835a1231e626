/** The per-barcode display setting edited from the barcode table: a colour
    and a "shown" toggle (graph/barcodesetting.h). */
module BarcodeSettings {
  import opened Colours

  /** The colour that showing or hiding leaves behind: same channels, alpha
      255 when shown and 0 when hidden. */
  function ShownColour(c: Colour, shown: bool): (r: Colour)
    ensures r.alpha == (if shown then 255 else 0)
    ensures r.valid == c.valid && r.red == c.red && r.green == c.green && r.blue == c.blue
  {
    WithAlpha(c, 255 * (if shown then 1 else 0))
  }

  /** Toggling to the same state again changes nothing further. */
  lemma ShownColourIdempotent(c: Colour, shown: bool)
    ensures ShownColour(ShownColour(c, shown), shown) == ShownColour(c, shown)
  {
  }

  class BarcodeSetting {
    var barcode: string
    var color: Colour
    var active: bool

    /** BarcodeSetting(barcode, color, active). Its body is in
        graph/barcodesetting.cpp, which is not part of this model; the model
        stores the three arguments. */
    constructor (barcode: string, color: Colour, active: bool)
      ensures this.barcode == barcode && this.color == color && this.active == active
    {
      this.barcode := barcode;
      this.color := color;
      this.active := active;
    }

    /** setColour: the whole colour, alpha included, is replaced; the shown
        flag is untouched, so the alpha need not agree with it afterwards. */
    method SetColour(newColour: Colour)
      modifies this`color
      ensures color == newColour
      ensures active == old(active) && barcode == old(barcode)
    {
      color := newColour;
    }

    /** setShown: records the flag and forces the alpha to 255 or 0. */
    method SetShown(newShown: bool)
      modifies this`color, this`active
      ensures active == newShown
      ensures color == ShownColour(old(color), newShown)
      ensures barcode == old(barcode)
    {
      active := newShown;
      color := WithAlpha(color, 255 * (if active then 1 else 0));
    }
  }
}
