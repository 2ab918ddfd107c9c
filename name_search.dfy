/** The name search: the catalog filtered to the entries whose lower-cased
    name includes the lower-cased query, in catalog order. */
module NameSearch {
  import opened Colors
  import opened TextMatch

  /** Queries shorter than this leave the shown list alone. */
  const MinQueryLength := 3

  /** `color.name.toLowerCase().includes(query.toLowerCase())` */
  predicate NameMatches(color: ColorModel, query: string)
  {
    Includes(ToLower(color.name), ToLower(query))
  }

  /** `a` is `b` with some entries dropped and the rest kept in order. */
  predicate IsSubsequence<T(==)>(a: seq<T>, b: seq<T>)
    decreases |b|
  {
    if a == [] then true
    else if b == [] then false
    else (a[0] == b[0] && IsSubsequence(a[1..], b[1..])) || IsSubsequence(a, b[1..])
  }

  /** `namedColors.filter(color => NameMatches(color, query))` */
  function FilterByName(catalog: seq<ColorModel>, query: string): (r: seq<ColorModel>)
    ensures forall c :: c in r ==> c in catalog && NameMatches(c, query)
    ensures forall i :: 0 <= i < |catalog| && NameMatches(catalog[i], query) ==> catalog[i] in r
    ensures IsSubsequence(r, catalog)
  {
    if catalog == [] then []
    else if NameMatches(catalog[0], query) then [catalog[0]] + FilterByName(catalog[1..], query)
    else FilterByName(catalog[1..], query)
  }

  /** A subsequence holds no entry more often than the sequence it is taken from. */
  lemma {:induction false} SubsequenceCounts<T>(a: seq<T>, b: seq<T>, x: T)
    requires IsSubsequence(a, b)
    ensures multiset(a)[x] <= multiset(b)[x]
    decreases |b|
  {
    if a == [] {
    } else if b == [] {
    } else if a[0] == b[0] && IsSubsequence(a[1..], b[1..]) {
      SubsequenceCounts(a[1..], b[1..], x);
      assert a == [a[0]] + a[1..];
      assert b == [b[0]] + b[1..];
    } else {
      SubsequenceCounts(a, b[1..], x);
      assert b == [b[0]] + b[1..];
    }
  }

  /** Count for count, the filter keeps every matching entry and no other. */
  lemma {:induction false} FilterCounts(catalog: seq<ColorModel>, query: string, x: ColorModel)
    ensures multiset(FilterByName(catalog, query))[x]
         == if NameMatches(x, query) then multiset(catalog)[x] else 0
  {
    if catalog != [] {
      FilterCounts(catalog[1..], query, x);
      assert catalog == [catalog[0]] + catalog[1..];
    }
  }

  /** The filter is the only list that is a subsequence of the catalog, holds
      only matching entries, and keeps every matching entry as often as the
      catalog has it: sound, complete and order-preserving pin it down. */
  lemma {:induction false} FilterUnique(catalog: seq<ColorModel>, query: string, r: seq<ColorModel>)
    requires IsSubsequence(r, catalog)
    requires forall c :: c in r ==> NameMatches(c, query)
    requires forall c :: NameMatches(c, query) ==> multiset(r)[c] == multiset(catalog)[c]
    ensures r == FilterByName(catalog, query)
    decreases |catalog|
  {
    if catalog == [] {
      return;
    }
    var h, t := catalog[0], catalog[1..];
    assert catalog == [h] + t;
    if r == [] {
      assert forall c :: NameMatches(c, query) ==> multiset(catalog)[c] == 0;
      assert !NameMatches(h, query);
      FilterUnique(t, query, r);
    } else if NameMatches(h, query) {
      if !(r[0] == h && IsSubsequence(r[1..], t)) {
        assert IsSubsequence(r, t);
        SubsequenceCounts(r, t, h);
        assert false;
      }
      assert r == [h] + r[1..];
      forall c | NameMatches(c, query)
        ensures multiset(r[1..])[c] == multiset(t)[c]
      {
        assert multiset(r)[c] == multiset(r[1..])[c] + (if c == h then 1 else 0);
        assert multiset(catalog)[c] == multiset(t)[c] + (if c == h then 1 else 0);
      }
      FilterUnique(t, query, r[1..]);
    } else {
      assert !(r[0] == h) by {
        assert r[0] in r;
      }
      assert IsSubsequence(r, t);
      forall c | NameMatches(c, query)
        ensures multiset(r)[c] == multiset(t)[c]
      {
        assert c != h;
        assert multiset(catalog)[c] == multiset(t)[c] + (if c == h then 1 else 0);
      }
      FilterUnique(t, query, r);
    }
  }

  /** Lower-casing the query first does not change which colors match. */
  lemma LoweredQueryMatchesAlike(catalog: seq<ColorModel>, query: string)
    ensures FilterByName(catalog, ToLower(query)) == FilterByName(catalog, query)
  {
    ToLowerIdempotent(query);
  }

  /** A catalog entry whose name contains the query verbatim is always found. */
  lemma ExactHitFound(catalog: seq<ColorModel>, query: string, i: nat)
    requires i < |catalog| && Includes(catalog[i].name, query)
    ensures catalog[i] in FilterByName(catalog, query)
  {
    IncludesLowered(catalog[i].name, query);
  }

  /** Searching for an entry's full name, in any letter case the catalog
      uses, finds that entry. */
  lemma OwnNameFound(catalog: seq<ColorModel>, i: nat)
    requires i < |catalog|
    ensures catalog[i] in FilterByName(catalog, catalog[i].name)
  {
    IncludesSelf(catalog[i].name);
    ExactHitFound(catalog, catalog[i].name, i);
  }

  /** The catalog [Red, Crimson, Dark Red] searched for "red" shows Red and
      Dark Red, in that order: case is ignored and Crimson is dropped. */
  lemma RedExample()
    ensures FilterByName([ColorModel("Red", "#ff0000"), ColorModel("Crimson", "#dc143c"),
                          ColorModel("Dark Red", "#8b0000")], "red")
         == [ColorModel("Red", "#ff0000"), ColorModel("Dark Red", "#8b0000")]
  {
    ExampleMatches();
    FilterOfThree(ColorModel("Red", "#ff0000"), ColorModel("Crimson", "#dc143c"),
                  ColorModel("Dark Red", "#8b0000"), "red");
  }

  lemma FilterOfThree(a: ColorModel, b: ColorModel, c: ColorModel, query: string)
    requires NameMatches(a, query) && !NameMatches(b, query) && NameMatches(c, query)
    ensures FilterByName([a, b, c], query) == [a, c]
  {
    assert [c][1..] == [];
    assert FilterByName([c], query) == [c];
    assert [b, c][1..] == [c];
    assert FilterByName([b, c], query) == [c];
    assert [a, b, c][1..] == [b, c];
    assert FilterByName([a, b, c], query) == [a] + [c];
  }

  lemma ExampleMatches()
    ensures NameMatches(ColorModel("Red", "#ff0000"), "red")
    ensures NameMatches(ColorModel("Dark Red", "#8b0000"), "red")
    ensures !NameMatches(ColorModel("Crimson", "#dc143c"), "red")
  {
    var query := ToLower("red");
    assert query == "red" by {
      assert forall i :: 0 <= i < 3 ==> query[i] == "red"[i];
    }
    ExampleRed();
    ExampleDarkRed();
    ExampleCrimson();
  }

  lemma ExampleRed()
    ensures OccursAt(ToLower("Red"), "red", 0)
  {
    var name := ToLower("Red");
    assert name == "red" by {
      assert forall i :: 0 <= i < 3 ==> name[i] == "red"[i];
    }
  }

  lemma ExampleDarkRed()
    ensures OccursAt(ToLower("Dark Red"), "red", 5)
  {
    var name := ToLower("Dark Red");
    assert name[5..8] == "red" by {
      assert forall i :: 5 <= i < 8 ==> name[i] == "dark red"[i];
    }
  }

  lemma ExampleCrimson()
    ensures !Includes(ToLower("Crimson"), "red")
  {
    var name := ToLower("Crimson");
    assert forall i :: 0 <= i < 7 ==> name[i] != 'd';
    forall i: nat | i <= |name| ensures !OccursAt(name, "red", i) {
      if i + 3 <= 7 { assert name[i..i + 3][2] == name[i + 2]; }
    }
  }
}
