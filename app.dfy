/** The state of the `App` component and the handlers and effects that change
    it. React's re-running of an effect when one of its dependencies changes
    is written out: each handler sets its field and then runs the effects
    that depend on it, in the order the component declares them. */
module App {
  import opened Colors
  import opened TextMatch
  import opened NameSearch
  import opened FisherYates

  /** `s.substring(1)`: everything after the first character, or the empty
      string when there is none. */
  function DropFirst(s: string): (r: string)
    ensures |s| > 0 ==> s == [s[0]] + r
    ensures |s| == 0 ==> r == ""
  {
    if |s| == 0 then "" else s[1..]
  }

  /** Shuffling the result of a name search still shows only colors that
      match the query, and all of them. */
  lemma ShuffledSearchStillMatches(catalog: seq<ColorModel>, query: string, picks: seq<nat>)
    requires ValidPicks(|FilterByName(catalog, query)|, picks)
    ensures forall c :: c in Shuffled(FilterByName(catalog, query), picks) <==> c in catalog && NameMatches(c, query)
  {
    var found := FilterByName(catalog, query);
    var shown := Shuffled(found, picks);
    forall c ensures c in shown <==> c in found {
      assert c in shown <==> c in multiset(shown);
      assert c in found <==> c in multiset(found);
    }
    forall c | c in catalog && NameMatches(c, query) ensures c in found {
      var i :| 0 <= i < |catalog| && catalog[i] == c;
    }
  }

  class AppState {
    /** `namedColors` from the color-name-list package: the catalog. */
    const namedColors: seq<ColorModel>
    /** The swatches on screen. */
    var colors: seq<ColorModel>
    /** false: name search; true: relevance search. */
    var toggleSearchType: bool
    var colorPickerSelectedColor: string
    var inputSearchRelevanceColor: string
    var inputSearchColorName: string

    /** The `useState` initial values. */
    constructor (namedColors: seq<ColorModel>)
      ensures this.namedColors == namedColors
      ensures colors == [] && !toggleSearchType
      ensures colorPickerSelectedColor == "#fff"
      ensures inputSearchRelevanceColor == "" && inputSearchColorName == ""
    {
      this.namedColors := namedColors;
      colors := [];
      toggleSearchType := false;
      colorPickerSelectedColor := "#fff";
      inputSearchRelevanceColor := "";
      inputSearchColorName := "";
    }

    /** The screen shows, in some order and count for count, the catalog
        entries that match the name query. */
    ghost predicate ShowsNameMatches()
      reads this
    {
      multiset(colors) == multiset(FilterByName(namedColors, inputSearchColorName))
    }

    /** `searchColorRelevance`: the nearest-color library's answer for the
        picked color (`matches`) replaces the shown list. */
    method SearchColorRelevance(matches: seq<ColorMatch>)
      modifies this`colors
      ensures colors == FromMatches(matches)
    {
      colors := FromMatches(matches);
    }

    /** The effect on `[colorPickerSelectedColor, toggleSearchType]`: in
        relevance mode, echo the picked color without its '#' into the hex
        field and show the library's matches; in name mode, do nothing. */
    method RelevanceEffect(matches: seq<ColorMatch>)
      modifies this`colors, this`inputSearchRelevanceColor
      ensures toggleSearchType ==> inputSearchRelevanceColor == DropFirst(colorPickerSelectedColor)
      ensures toggleSearchType ==> colors == FromMatches(matches)
      ensures !toggleSearchType ==> inputSearchRelevanceColor == old(inputSearchRelevanceColor)
      ensures !toggleSearchType ==> colors == old(colors)
    {
      if toggleSearchType {
        inputSearchRelevanceColor := DropFirst(colorPickerSelectedColor);
        SearchColorRelevance(matches);
      }
    }

    /** The effect on `[inputSearchColorName, toggleSearchType]`: in name
        mode with a query of at least three characters, show exactly the
        catalog entries whose lower-cased name includes the lower-cased
        query, in catalog order; otherwise leave the shown list alone. */
    method NameEffect()
      modifies this`colors
      ensures !toggleSearchType && |inputSearchColorName| >= MinQueryLength ==>
                colors == FilterByName(namedColors, inputSearchColorName) && ShowsNameMatches()
      ensures toggleSearchType || |inputSearchColorName| < MinQueryLength ==> colors == old(colors)
    {
      if !toggleSearchType {
        if |inputSearchColorName| < MinQueryLength {
          return;
        }
        colors := FilterByName(namedColors, inputSearchColorName);
      }
    }

    /** "Shuffle List": the shown list is replaced by its shuffled copy. Only
        the order changes, so a screen of name matches stays one. */
    method OnClickShuffle(picks: seq<nat>)
      requires ValidPicks(|colors|, picks)
      modifies this`colors
      ensures colors == Shuffled(old(colors), picks)
      ensures |colors| == |old(colors)| && multiset(colors) == multiset(old(colors))
      ensures old(ShowsNameMatches()) ==> ShowsNameMatches()
    {
      colors := Shuffle(colors, picks);
    }

    /** Typing in the name field. React skips the effect when the value did
        not change, so retyping the same query keeps a shuffled order. */
    method OnChangeSearchColorName(value: string)
      modifies this`inputSearchColorName, this`colors
      ensures inputSearchColorName == value
      ensures value != old(inputSearchColorName) && !toggleSearchType && |value| >= MinQueryLength ==>
                colors == FilterByName(namedColors, value)
      ensures value == old(inputSearchColorName) || toggleSearchType || |value| < MinQueryLength ==>
                colors == old(colors)
    {
      if value != inputSearchColorName {
        inputSearchColorName := value;
        NameEffect();
      }
    }

    /** Clicking the mode switch flips the mode; both effects depend on it
        and run in declaration order, so exactly the one for the new mode
        acts. `matches` is the library's answer for the picked color. */
    method OnToggleSearchType(matches: seq<ColorMatch>)
      modifies this`toggleSearchType, this`colors, this`inputSearchRelevanceColor
      ensures toggleSearchType == !old(toggleSearchType)
      ensures toggleSearchType ==>
                colors == FromMatches(matches) && inputSearchRelevanceColor == DropFirst(colorPickerSelectedColor)
      ensures !toggleSearchType && |inputSearchColorName| >= MinQueryLength ==>
                colors == FilterByName(namedColors, inputSearchColorName)
      ensures !toggleSearchType && |inputSearchColorName| < MinQueryLength ==> colors == old(colors)
      ensures !toggleSearchType ==> inputSearchRelevanceColor == old(inputSearchRelevanceColor)
    {
      toggleSearchType := !toggleSearchType;
      RelevanceEffect(matches);
      NameEffect();
    }

    /** Picking a color in the picker. The relevance effect re-runs only when
        the color changed. */
    method OnChangePickerColor(newColor: string, matches: seq<ColorMatch>)
      modifies this`colorPickerSelectedColor, this`colors, this`inputSearchRelevanceColor
      ensures colorPickerSelectedColor == newColor
      ensures newColor != old(colorPickerSelectedColor) && toggleSearchType ==>
                colors == FromMatches(matches) && inputSearchRelevanceColor == DropFirst(newColor)
      ensures newColor == old(colorPickerSelectedColor) || !toggleSearchType ==>
                colors == old(colors) && inputSearchRelevanceColor == old(inputSearchRelevanceColor)
    {
      if newColor != colorPickerSelectedColor {
        colorPickerSelectedColor := newColor;
        RelevanceEffect(matches);
      }
    }
  }
}
