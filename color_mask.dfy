/**
  `gray_to_color_mask`: a six-row palette indexed by every grey value of a
  single-channel mask, giving a three-channel image of the same height and
  width. The channels are kept in the order the palette rows list them,
  which is the blue-green-red order in which OpenCV encodes an image.
*/
module ColorMask {

  import opened Optional

  /** An unsigned 8-bit channel value (`np.uint8`). */
  newtype Byte = x: int | 0 <= x < 256

  /** One pixel of the colour mask, channels in OpenCV's order. */
  datatype Bgr = Bgr(blue: Byte, green: Byte, red: Byte)

  /** The six palette rows, indexed by grey value. */
  const Colormap: seq<Bgr> := [
    Bgr(0, 0, 0),
    Bgr(64, 64, 64),
    Bgr(129, 129, 129),
    Bgr(64, 255, 64),
    Bgr(255, 255, 255),
    Bgr(255, 129, 64)
  ]

  /**
    The palette row that NumPy integer indexing selects for value `v`: values
    0..5 select their own row, -6..-1 count from the end, anything else is an
    IndexError.
  */
  function PaletteRow(v: int): (k: Option<nat>)
    ensures k.Some? <==> -|Colormap| <= v < |Colormap|
    ensures k.Some? ==> k.value < |Colormap|
    ensures k.Some? && 0 <= v ==> k.value == v
    ensures k.Some? && v < 0 ==> k.value == v + |Colormap|
  {
    if 0 <= v < |Colormap| then Some(v)
    else if -|Colormap| <= v < 0 then Some(v + |Colormap|)
    else None
  }

  /** Every grey value of the mask is a valid palette index. */
  predicate Indexable(gray: seq<seq<int>>) {
    forall i, j :: 0 <= i < |gray| && 0 <= j < |gray[i]| ==> PaletteRow(gray[i][j]).Some?
  }

  /**
    `custom_colormap[gray_image]`: `None` stands for the IndexError raised
    when some grey value is out of range.
  */
  function GrayToColorMask(gray: seq<seq<int>>): (color: Option<seq<seq<Bgr>>>)
    ensures color.Some? <==> Indexable(gray)
    ensures color.Some? ==> |color.value| == |gray|
    ensures color.Some? ==> forall i :: 0 <= i < |gray| ==> |color.value[i]| == |gray[i]|
    ensures color.Some? ==> forall i, j :: 0 <= i < |gray| && 0 <= j < |gray[i]| ==>
              color.value[i][j] == Colormap[PaletteRow(gray[i][j]).value]
  {
    if Indexable(gray) then
      Some(seq(|gray|, i requires 0 <= i < |gray| =>
        seq(|gray[i]|, j requires 0 <= j < |gray[i]| => Colormap[PaletteRow(gray[i][j]).value])))
    else
      None
  }

  /**
    A mask whose values all lie in 0..5 always converts, each pixel becoming
    exactly the palette row of its grey value.
  */
  lemma ColorOfInRangeMask(gray: seq<seq<int>>)
    requires forall i, j :: 0 <= i < |gray| && 0 <= j < |gray[i]| ==> 0 <= gray[i][j] < 6
    ensures GrayToColorMask(gray).Some?
    ensures forall i, j :: 0 <= i < |gray| && 0 <= j < |gray[i]| ==>
              GrayToColorMask(gray).value[i][j] == Colormap[gray[i][j]]
  {
  }
}
