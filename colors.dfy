/** The records the color searcher shows: a named color and the match record
    returned by the nearest-color library. */
module Colors {

  /** One swatch: a color name and its hex code (e.g. "#ff0000"). Compared
      structurally, as the plain JavaScript objects are after a JSON copy. */
  datatype ColorModel = ColorModel(name: string, hex: string)

  /** What the nearest-color search hands back for one catalog entry: the
      entry's name and its hex code under the field name `value`. */
  datatype ColorMatch = ColorMatch(name: string, value: string)

  /** Renames `value` to `hex`, entry by entry, keeping the library's order. */
  function FromMatches(matches: seq<ColorMatch>): (r: seq<ColorModel>)
    ensures |r| == |matches|
    ensures forall i :: 0 <= i < |r| ==> r[i] == ColorModel(matches[i].name, matches[i].value)
  {
    if matches == [] then []
    else [ColorModel(matches[0].name, matches[0].value)] + FromMatches(matches[1..])
  }
}
