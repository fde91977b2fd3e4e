/**
 Colour assignment for the map markers. The colour map starts as five fixed
 entries; every plastic type of the filtered view that has no entry yet gets
 the colour popped from the end of a (shuffled) palette list. A marker then
 looks its type up, falling back to gray.

 The shuffled palette is an input: the shuffle itself is outside the model.
 Popping from an exhausted palette is an error (the script stops there); it
 is the `PopFromEmpty` outcome.
 */
module Colors {
  import opened Observations

  /** The colour a marker gets when its type has no entry. */
  const FALLBACK_COLOR: string := "gray"

  /** The predefined colours of the five known plastic types. */
  const BASE_COLORS: map<string, string> := map[
    "plastic_bottle" := "blue",
    "fishing_net" := "green",
    "plastic_bag" := "red",
    "microplastic" := "purple",
    "other" := "orange"]

  ghost predicate NoDuplicates<T>(s: seq<T>) {
    forall i, j :: 0 <= i < j < |s| ==> s[i] != s[j]
  }

  /** The distinct values of `s`, each where it first occurs. */
  function Distinct(s: seq<string>): (d: seq<string>)
    ensures NoDuplicates(d)
    ensures forall x :: x in d <==> x in s
    ensures |d| <= |s|
  {
    if s == [] then []
    else
      var d := Distinct(s[..|s| - 1]);
      var x := s[|s| - 1];
      assert s == s[..|s| - 1] + [x];
      if x in d then d else d + [x]
  }

  /** The position of the first occurrence of `x` in `s`. */
  function FirstIndex(s: seq<string>, x: string): (p: nat)
    requires x in s
    ensures p < |s| && s[p] == x && x !in s[..p]
  {
    if s[0] == x then 0 else 1 + FirstIndex(s[1..], x)
  }

  lemma {:induction false} FirstIndexAppend(s: seq<string>, x: string, y: string)
    requires y in s
    ensures y in s + [x] && FirstIndex(s + [x], y) == FirstIndex(s, y)
  {
    if s[0] != y {
      assert (s + [x])[1..] == s[1..] + [x];
      FirstIndexAppend(s[1..], x, y);
    }
  }

  /** The distinct values come out in the order of their first occurrences. */
  lemma {:induction false} DistinctKeepsFirstAppearanceOrder(s: seq<string>, i: nat, j: nat)
    requires i < j < |Distinct(s)|
    ensures FirstIndex(s, Distinct(s)[i]) < FirstIndex(s, Distinct(s)[j])
  {
    var s', x := s[..|s| - 1], s[|s| - 1];
    var d' := Distinct(s');
    assert s == s' + [x];
    assert Distinct(s)[i] in s' && Distinct(s)[i] == d'[i];
    FirstIndexAppend(s', x, d'[i]);
    if x in d' {
      DistinctKeepsFirstAppearanceOrder(s', i, j);
      FirstIndexAppend(s', x, d'[j]);
    } else if j < |d'| {
      DistinctKeepsFirstAppearanceOrder(s', i, j);
      FirstIndexAppend(s', x, d'[j]);
    } else {
      assert Distinct(s)[j] == x && x !in s';
      assert s'[..|s'|] == s';
      assert FirstIndex(s, x) == |s'|;
    }
  }

  /** The plastic-type column of a table, in row order. */
  function Types(rows: seq<Row>): seq<string>
  {
    seq(|rows|, i requires 0 <= i < |rows| => rows[i].plasticType)
  }

  /** The distinct plastic types of a table, in order of first appearance. */
  function UniqueTypes(rows: seq<Row>): (u: seq<string>)
    ensures NoDuplicates(u)
    ensures forall x :: x in u <==> exists i :: 0 <= i < |rows| && rows[i].plasticType == x
  {
    var u := Distinct(Types(rows));
    assert |Types(rows)| == |rows| && forall i :: 0 <= i < |rows| ==> Types(rows)[i] == rows[i].plasticType;
    assert forall x :: x in Types(rows) <==> exists i :: 0 <= i < |rows| && Types(rows)[i] == x;
    u
  }

  /** The state after the colour loop, or the type whose colour could not be popped. */
  datatype ColorResult =
    | Colored(colorMap: map<string, string>, available: seq<string>)
    | PopFromEmpty(plasticType: string)

  /** Reference definition of the colour loop over `types`, from the given map and palette. */
  function Assign(types: seq<string>, colorMap: map<string, string>, available: seq<string>): ColorResult
    decreases |types|
  {
    if types == [] then Colored(colorMap, available)
    else if types[0] in colorMap then Assign(types[1..], colorMap, available)
    else if available == [] then PopFromEmpty(types[0])
    else Assign(types[1..], colorMap[types[0] := available[|available| - 1]], available[..|available| - 1])
  }

  /** The types of `types` that have no entry in `colorMap`, in order. */
  function Unmapped(types: seq<string>, colorMap: map<string, string>): (u: seq<string>)
    ensures |u| <= |types|
    ensures forall x :: x in u <==> x in types && x !in colorMap
    ensures NoDuplicates(types) ==> NoDuplicates(u)
  {
    if types == [] then []
    else
      var rest := Unmapped(types[1..], colorMap);
      assert forall x :: x in types <==> x == types[0] || x in types[1..];
      assert NoDuplicates(types) ==> types[0] !in types[1..] && NoDuplicates(types[1..]) by {
        if NoDuplicates(types) {
          forall i, j | 0 <= i < j < |types| - 1 ensures types[1..][i] != types[1..][j] {
            assert types[1..][i] == types[i + 1] && types[1..][j] == types[j + 1];
          }
        }
      }
      if types[0] in colorMap then rest else [types[0]] + rest
  }

  /** The coloring the script computes for a filtered view and a shuffled palette. */
  function Coloring(filtered: seq<Row>, palette: seq<string>): ColorResult {
    Assign(UniqueTypes(filtered), BASE_COLORS, palette)
  }

  /** The types of the filtered view that need a palette colour, in order of first appearance. */
  function NewTypes(filtered: seq<Row>): seq<string> {
    Unmapped(UniqueTypes(filtered), BASE_COLORS)
  }

  /** The colour of a marker for plastic type `t`. */
  function MarkerColor(colorMap: map<string, string>, t: string): string
  {
    if t in colorMap then colorMap[t] else FALLBACK_COLOR
  }

  /** The colour loop: seeds the map, then pops a palette colour for each unmapped type. */
  method AssignColors(filtered: seq<Row>, palette: seq<string>) returns (r: ColorResult)
    ensures r == Coloring(filtered, palette)
  {
    var uniqueTypes := UniqueTypes(filtered);
    var colorMap := BASE_COLORS;
    var available := palette;
    for i := 0 to |uniqueTypes|
      invariant Assign(uniqueTypes[i..], colorMap, available) == Assign(uniqueTypes, BASE_COLORS, palette)
    {
      var pt := uniqueTypes[i];
      assert uniqueTypes[i..][1..] == uniqueTypes[i + 1..];
      if pt !in colorMap {
        if available == [] {
          return PopFromEmpty(pt);
        }
        colorMap := colorMap[pt := available[|available| - 1]];
        available := available[..|available| - 1];
      }
    }
    return Colored(colorMap, available);
  }

  // ---------------------------------------------------------------- the loop's behaviour

  lemma {:induction false} UnmappedIgnores(types: seq<string>, colorMap: map<string, string>, t: string, c: string)
    requires t !in types
    ensures Unmapped(types, colorMap[t := c]) == Unmapped(types, colorMap)
  {
    if types != [] {
      assert t != types[0] && t !in types[1..];
      UnmappedIgnores(types[1..], colorMap, t, c);
    }
  }

  /** Splits distinct `types` into its head and a distinct tail without the head. */
  lemma SplitDistinct(types: seq<string>)
    requires NoDuplicates(types) && types != []
    ensures NoDuplicates(types[1..]) && types[0] !in types[1..]
    ensures (set t | t in types) == {types[0]} + (set t | t in types[1..])
  {
  }

  /**
   The unmapped types keep the order of `types`: an earlier unmapped type
   occurs earlier in `types`.
   */
  lemma {:induction false} UnmappedOrder(types: seq<string>, colorMap: map<string, string>, i: nat, j: nat)
    requires NoDuplicates(types) && i < j < |Unmapped(types, colorMap)|
    ensures var u := Unmapped(types, colorMap);
      FirstIndex(types, u[i]) < FirstIndex(types, u[j])
  {
    var u := Unmapped(types, colorMap);
    var rest := Unmapped(types[1..], colorMap);
    SplitDistinct(types);
    if types[0] in colorMap {
      assert u == rest && u[i] != types[0] && u[j] != types[0];
      UnmappedOrder(types[1..], colorMap, i, j);
    } else {
      assert u == [types[0]] + rest && u[j] == rest[j - 1] && u[j] != types[0];
      if i > 0 {
        assert u[i] == rest[i - 1] && u[i] != types[0];
        UnmappedOrder(types[1..], colorMap, i - 1, j - 1);
      }
    }
  }

  /** The new types of a view come out in the order the view's rows first show them. */
  lemma NewTypesInViewOrder(filtered: seq<Row>, i: nat, j: nat)
    requires i < j < |NewTypes(filtered)|
    ensures var n := NewTypes(filtered);
      n[i] in Types(filtered) && n[j] in Types(filtered)
      && FirstIndex(Types(filtered), n[i]) < FirstIndex(Types(filtered), n[j])
  {
    var u := UniqueTypes(filtered);
    var n := NewTypes(filtered);
    UnmappedOrder(u, BASE_COLORS, i, j);
    var a, b := FirstIndex(u, n[i]), FirstIndex(u, n[j]);
    assert u == Distinct(Types(filtered));
    DistinctKeepsFirstAppearanceOrder(Types(filtered), a, b);
  }

  /**
   For distinct `types`, the colour loop succeeds exactly when the palette
   holds a colour for every unmapped type; otherwise it stops at the first
   unmapped type beyond the palette.
   */
  lemma {:induction false} AssignOutcome(types: seq<string>, colorMap: map<string, string>, available: seq<string>)
    requires NoDuplicates(types)
    ensures var u := Unmapped(types, colorMap);
      var r := Assign(types, colorMap, available);
      && (r.Colored? <==> |u| <= |available|)
      && (r.PopFromEmpty? ==> |available| < |u| && r.plasticType == u[|available|])
  {
    if types != [] {
      var t0, rest := types[0], types[1..];
      SplitDistinct(types);
      if t0 in colorMap {
        AssignOutcome(rest, colorMap, available);
      } else if available != [] {
        var n := |available|;
        AssignOutcome(rest, colorMap[t0 := available[n - 1]], available[..n - 1]);
        UnmappedIgnores(rest, colorMap, t0, available[n - 1]);
      }
    }
  }

  /** A successful loop keeps every existing entry and maps every type. */
  lemma {:induction false} AssignKeys(types: seq<string>, colorMap: map<string, string>, available: seq<string>)
    requires NoDuplicates(types)
    requires Assign(types, colorMap, available).Colored?
    ensures var m := Assign(types, colorMap, available).colorMap;
      && m.Keys == colorMap.Keys + (set t | t in types)
      && (forall k :: k in colorMap ==> m[k] == colorMap[k])
  {
    if types != [] {
      var t0, rest := types[0], types[1..];
      SplitDistinct(types);
      if t0 in colorMap {
        AssignKeys(rest, colorMap, available);
      } else {
        var n := |available|;
        AssignKeys(rest, colorMap[t0 := available[n - 1]], available[..n - 1]);
      }
    }
  }

  /** A successful loop leaves the palette minus one colour per unmapped type, taken from its end. */
  lemma {:induction false} AssignRemaining(types: seq<string>, colorMap: map<string, string>, available: seq<string>)
    requires NoDuplicates(types)
    requires Assign(types, colorMap, available).Colored?
    ensures |Unmapped(types, colorMap)| <= |available|
    ensures Assign(types, colorMap, available).available == available[..|available| - |Unmapped(types, colorMap)|]
  {
    if types != [] {
      var t0, rest := types[0], types[1..];
      SplitDistinct(types);
      if t0 in colorMap {
        AssignRemaining(rest, colorMap, available);
      } else {
        var n := |available|;
        AssignRemaining(rest, colorMap[t0 := available[n - 1]], available[..n - 1]);
        UnmappedIgnores(rest, colorMap, t0, available[n - 1]);
        assert available[..n - 1][..n - 1 - |Unmapped(rest, colorMap)|]
            == available[..n - |Unmapped(types, colorMap)|];
      }
    }
  }

  /** A successful loop gives the j-th unmapped type the j-th colour from the end of the palette. */
  lemma {:induction false} AssignPopAt(types: seq<string>, colorMap: map<string, string>, available: seq<string>, j: nat)
    requires NoDuplicates(types)
    requires Assign(types, colorMap, available).Colored?
    requires j < |Unmapped(types, colorMap)|
    ensures j < |available|
    ensures var u := Unmapped(types, colorMap);
      var m := Assign(types, colorMap, available).colorMap;
      u[j] in m && m[u[j]] == available[|available| - 1 - j]
  {
    AssignRemaining(types, colorMap, available);
    var t0, rest := types[0], types[1..];
    SplitDistinct(types);
    if t0 in colorMap {
      AssignPopAt(rest, colorMap, available, j);
    } else {
      var n := |available|;
      var c := available[n - 1];
      UnmappedIgnores(rest, colorMap, t0, c);
      assert Unmapped(types, colorMap) == [t0] + Unmapped(rest, colorMap);
      if j == 0 {
        AssignKeys(rest, colorMap[t0 := c], available[..n - 1]);
      } else {
        AssignPopAt(rest, colorMap[t0 := c], available[..n - 1], j - 1);
      }
    }
  }

  // ---------------------------------------------------------------- the script's coloring

  /** The loop succeeds exactly when the palette covers the new types; otherwise it stops at the first type beyond it. */
  lemma ColoringSucceedsIff(filtered: seq<Row>, palette: seq<string>)
    ensures Coloring(filtered, palette).Colored? <==> |NewTypes(filtered)| <= |palette|
    ensures Coloring(filtered, palette).PopFromEmpty? ==>
      && |palette| < |NewTypes(filtered)|
      && Coloring(filtered, palette).plasticType == NewTypes(filtered)[|palette|]
      && Coloring(filtered, palette).plasticType !in BASE_COLORS
  {
    AssignOutcome(UniqueTypes(filtered), BASE_COLORS, palette);
  }

  /** The five predefined entries are unchanged and every type of the filtered view is mapped. */
  lemma ColoringKeepsBaseAndCoversTypes(filtered: seq<Row>, palette: seq<string>)
    requires Coloring(filtered, palette).Colored?
    ensures var m := Coloring(filtered, palette).colorMap;
      && m.Keys == BASE_COLORS.Keys + (set r | r in filtered :: r.plasticType)
      && (forall k :: k in BASE_COLORS ==> m[k] == BASE_COLORS[k])
  {
    var u := UniqueTypes(filtered);
    AssignKeys(u, BASE_COLORS, palette);
    assert (set t | t in u) == (set r | r in filtered :: r.plasticType) by {
      forall t | t in u ensures t in (set r | r in filtered :: r.plasticType) {
        var i :| 0 <= i < |filtered| && filtered[i].plasticType == t;
      }
    }
  }

  /**
   The j-th new type gets the j-th colour from the end of the palette, and the
   palette shrinks by exactly the number of new types.
   */
  lemma ColoringPopsFromEnd(filtered: seq<Row>, palette: seq<string>)
    requires Coloring(filtered, palette).Colored?
    ensures var r := Coloring(filtered, palette);
      var u := NewTypes(filtered);
      && |r.available| == |palette| - |u|
      && r.available == palette[..|palette| - |u|]
      && (forall j :: 0 <= j < |u| ==> u[j] in r.colorMap && r.colorMap[u[j]] == palette[|palette| - 1 - j])
  {
    var u := NewTypes(filtered);
    AssignRemaining(UniqueTypes(filtered), BASE_COLORS, palette);
    forall j | 0 <= j < |u| ensures
      var m := Coloring(filtered, palette).colorMap;
      u[j] in m && m[u[j]] == palette[|palette| - 1 - j]
    {
      AssignPopAt(UniqueTypes(filtered), BASE_COLORS, palette, j);
    }
  }

  /**
   With a palette free of duplicates, the new types get pairwise distinct
   colours and none of them is left in the palette.
   */
  lemma NewColorsDistinctAndRemoved(filtered: seq<Row>, palette: seq<string>)
    requires NoDuplicates(palette)
    requires Coloring(filtered, palette).Colored?
    ensures var r := Coloring(filtered, palette);
      var u := NewTypes(filtered);
      && (forall j :: 0 <= j < |u| ==> u[j] in r.colorMap && r.colorMap[u[j]] !in r.available)
      && (forall i, j :: 0 <= i < j < |u| ==> r.colorMap[u[i]] != r.colorMap[u[j]])
  {
    var r := Coloring(filtered, palette);
    var u := NewTypes(filtered);
    var n := |palette|;
    ColoringPopsFromEnd(filtered, palette);
    forall j | 0 <= j < |u| ensures r.colorMap[u[j]] !in r.available {
      forall i | 0 <= i < |r.available| ensures r.available[i] != r.colorMap[u[j]] {
        assert r.available[i] == palette[i];
      }
    }
  }

  /** Every marker of the filtered view takes its colour from the map, never the gray fallback. */
  lemma MarkersNeverFallBack(filtered: seq<Row>, palette: seq<string>)
    requires Coloring(filtered, palette).Colored?
    ensures var m := Coloring(filtered, palette).colorMap;
      forall i :: 0 <= i < |filtered| ==>
        filtered[i].plasticType in m && MarkerColor(m, filtered[i].plasticType) == m[filtered[i].plasticType]
  {
    ColoringKeepsBaseAndCoversTypes(filtered, palette);
    var m := Coloring(filtered, palette).colorMap;
    forall i | 0 <= i < |filtered| ensures filtered[i].plasticType in m {
      assert filtered[i] in filtered;
    }
  }

  /** A palette colour is not kept apart from the five fixed ones: a new type may share `blue`. */
  lemma NewColorMayRepeatBase()
    ensures Assign(["rope"], BASE_COLORS, ["blue"]) == Colored(BASE_COLORS["rope" := "blue"], [])
    ensures BASE_COLORS["rope" := "blue"]["rope"] == BASE_COLORS["plastic_bottle"]
  {
    assert "rope" !in BASE_COLORS;
    assert ["rope"][1..] == [];
  }
}
