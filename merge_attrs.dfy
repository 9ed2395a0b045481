/** Laying user attributes over a theme's defaults (html/element.go, `mergeAttrs`). */
module AttrMerge {
  import opened Attribute
  import opened ClassMerge

  /** The theme's class list; Go reads a missing key as the empty string. */
  function ThemeClass(theme: Attrs): string
  {
    if "class" in theme then theme["class"] else ""
  }

  /** What `mergeAttrs(theme, user)` returns. */
  function MergedAttrs(theme: Attrs, user: Attrs): Attrs
  {
    if "class" in user then (theme + user)["class" := MergedClasses(ThemeClass(theme), user["class"])]
    else theme + user
  }

  /** `mergeAttrs`: a fresh map, first a copy of the theme, then every user entry
      written over it, the user's `class` merged with the theme's. */
  method MergeAttrs(theme: Attrs, user: Attrs) returns (result: Attrs)
    ensures result == MergedAttrs(theme, user)
  {
    result := CopyAttrs(theme);
    var rest := user.Keys;
    assert user - rest == map[];
    assert MergedAttrs(theme, map[]) == theme;
    while rest != {}
      invariant rest <= user.Keys
      invariant result == MergedAttrs(theme, user - rest)
      decreases rest
    {
      var k :| k in rest;
      assert user - (rest - {k}) == (user - rest)[k := user[k]];
      OverlayStep(theme, user - rest, k, user[k]);
      if k == "class" {
        var c := MergeClasses(ThemeClass(theme), user[k]);
        result := result[k := c];
      } else {
        result := result[k := user[k]];
      }
      rest := rest - {k};
    }
    assert user - rest == user;
  }

  /** One more user entry changes the merge at its own key only. */
  lemma OverlayStep(theme: Attrs, done: Attrs, k: string, v: string)
    ensures MergedAttrs(theme, done[k := v])
      == MergedAttrs(theme, done)[k := if k == "class" then MergedClasses(ThemeClass(theme), v) else v]
  {
  }

  /** The first loop of `mergeAttrs`: an entry-by-entry copy. */
  method CopyAttrs(m: Attrs) returns (result: Attrs)
    ensures result == m
  {
    result := map[];
    var rest := m.Keys;
    while rest != {}
      invariant rest <= m.Keys
      invariant result.Keys == m.Keys - rest
      invariant forall k :: k in result ==> result[k] == m[k]
      decreases rest
    {
      var k :| k in rest;
      result := result[k := m[k]];
      rest := rest - {k};
    }
  }

  /** The merge holds every key of either map; a key only the theme has keeps the
      theme's value; any other user key takes the user's value; the user's `class`
      is merged with the theme's class list (empty when the theme has none). */
  lemma MergedAttrsSpec(theme: Attrs, user: Attrs)
    ensures var m := MergedAttrs(theme, user);
      && (forall k :: k in m <==> k in theme || k in user)
      && (forall k :: k in theme && k !in user ==> m[k] == theme[k])
      && (forall k :: k in user && k != "class" ==> m[k] == user[k])
      && ("class" in user ==> m["class"] == MergedClasses(ThemeClass(theme), user["class"]))
  {
  }

  /** Keys other than `class` are never merged: the user's value, or else the theme's. */
  lemma MergedAttrsKeepsUserValue(theme: Attrs, user: Attrs, k: string)
    requires k != "class" && k in theme + user
    ensures MergedAttrs(theme, user)[k] == (theme + user)[k]
  {
  }
}
