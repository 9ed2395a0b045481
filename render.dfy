/**
 What one call of an `Element` node computes (html/element.go, `Element` and
 `Text`), as a function of the node tree and of the id source. A render also
 changes the element's attribute map (the theme merge and the id are written
 back into the closure's captured map), so the result carries the tree as it
 is after the call, ready for the next one.
 */
module Render {
  import opened Wrappers
  import opened Strings
  import opened Attribute
  import opened AttrMerge
  import opened ClassMerge
  import opened Indent
  import opened Markup

  /** A theme: default attributes per tag name. */
  type Theme = map<string, Attrs>

  /** A node as an element receives it among its children: nil, a `Text` node, or
      an element with the theme of the context it was built in, its attribute map
      and its children. */
  datatype Node =
    | Nil
    | Text(s: string)
    | El(tag: string, theme: Option<Theme>, attrs: Attrs, kids: seq<Node>)

  /** The id source: the `k`-th request for a fresh id fails (`None`) or yields a string. */
  type Draws = nat -> Option<string>

  /** One render: the text, the node as it is afterwards, and the number of id
      requests made so far. */
  datatype Rendered = Rendered(html: string, after: Node, next: nat)

  /** The children of one render: the indented texts of the non-nil children, the
      children as they are afterwards, and the id requests made so far. */
  datatype KidsRendered = KidsRendered(pieces: seq<string>, after: seq<Node>, next: nat)

  /** The theme step: merged with the theme's defaults for the tag, when there are any. */
  function Themed(theme: Option<Theme>, tag: string, attrs: Attrs): Attrs
  {
    if theme.Some? && tag in theme.value then MergedAttrs(theme.value[tag], attrs) else attrs
  }

  /** The id step: an id is requested only when there is none, and set only when
      the request succeeds. */
  function WithId(attrs: Attrs, draws: Draws, k: nat): (r: (Attrs, nat))
  {
    if "id" in attrs then (attrs, k)
    else if draws(k).Some? then (attrs["id" := draws(k).value], k + 1)
    else (attrs, k + 1)
  }

  /** Calling a node: a `Text` node yields its string; an element merges its theme,
      fills in its id, renders its children and writes its markup. */
  ghost function RenderNode(n: Node, draws: Draws, k: nat): (r: Rendered)
    requires !n.Nil?
    ensures n.El? ==> r.after.El? && r.after.tag == n.tag && r.after.theme == n.theme
    decreases n, if n.El? then |n.kids| + 1 else 0
  {
    match n
    case Text(s) => Rendered(s, n, k)
    case El(tag, theme, attrs, kids) =>
      var (a, k1) := WithId(Themed(theme, tag, attrs), draws, k);
      var kr := RenderKids(n, |kids|, draws, k1);
      Rendered(ElementMarkup(tag, AttrStringOf(a), Join(kr.pieces, "\n")), El(tag, theme, a, kr.after), kr.next)
  }

  /** The first `m` children of `n`, in order: a nil child is skipped, any other is
      called and its text indented one level. */
  ghost function RenderKids(n: Node, m: nat, draws: Draws, k: nat): KidsRendered
    requires n.El? && m <= |n.kids|
    decreases n, m
  {
    if m == 0 then KidsRendered([], [], k)
    else
      var prev := RenderKids(n, m - 1, draws, k);
      var c := n.kids[m - 1];
      if c.Nil? then KidsRendered(prev.pieces, prev.after + [c], prev.next)
      else
        var r := RenderNode(c, draws, prev.next);
        KidsRendered(prev.pieces + [Indented(r.html, 1)], prev.after + [r.after], r.next)
  }

  /** An element's render, given the outcome of its theme and id steps. */
  lemma RenderElement(n: Node, draws: Draws, k: nat, a: Attrs, k1: nat)
    requires n.El? && (a, k1) == WithId(Themed(n.theme, n.tag, n.attrs), draws, k)
    ensures var kr := RenderKids(n, |n.kids|, draws, k1);
      RenderNode(n, draws, k) == Rendered(ElementMarkup(n.tag, AttrStringOf(a), Join(kr.pieces, "\n")), El(n.tag, n.theme, a, kr.after), kr.next)
  {
  }

  /** The number of non-nil nodes. */
  function Present(ns: seq<Node>): nat
  {
    if ns == [] then 0 else Present(ns[..|ns| - 1]) + if ns[|ns| - 1].Nil? then 0 else 1
  }

  /** A `Text` node yields its string and changes nothing. */
  lemma TextRendersItself(s: string, draws: Draws, k: nat)
    ensures RenderNode(Text(s), draws, k) == Rendered(s, Text(s), k)
  {
  }

  /** One piece per non-nil child, none of them empty; nil children stay nil. */
  lemma {:induction false} RenderKidsShape(n: Node, m: nat, draws: Draws, k: nat)
    requires n.El? && m <= |n.kids|
    ensures var kr := RenderKids(n, m, draws, k);
      && |kr.pieces| == Present(n.kids[..m])
      && |kr.after| == m
      && (forall i :: 0 <= i < |kr.pieces| ==> kr.pieces[i] != "")
      && (forall j :: 0 <= j < m ==> (kr.after[j].Nil? <==> n.kids[j].Nil?))
    decreases m
  {
    if m > 0 {
      RenderKidsShape(n, m - 1, draws, k);
      assert n.kids[..m][..m - 1] == n.kids[..m - 1];
      var c := n.kids[m - 1];
      if !c.Nil? {
        IndentedNonEmpty(RenderNode(c, draws, RenderKids(n, m - 1, draws, k).next).html, 1);
      }
    }
  }

  /** Rendering one more child only appends. */
  lemma RenderKidsStep(n: Node, m: nat, draws: Draws, k: nat)
    requires n.El? && 0 < m <= |n.kids|
    ensures RenderKids(n, m - 1, draws, k).pieces <= RenderKids(n, m, draws, k).pieces
    ensures RenderKids(n, m - 1, draws, k).after <= RenderKids(n, m, draws, k).after
  {
  }

  /** Rendering more children only appends: the pieces and the nodes of the
      first `j` children stay as they were. */
  lemma {:induction false} RenderKidsPrefix(n: Node, j: nat, m: nat, draws: Draws, k: nat)
    requires n.El? && j <= m <= |n.kids|
    ensures RenderKids(n, j, draws, k).pieces <= RenderKids(n, m, draws, k).pieces
    ensures RenderKids(n, j, draws, k).after <= RenderKids(n, m, draws, k).after
    decreases m
  {
    if j < m {
      RenderKidsPrefix(n, j, m - 1, draws, k);
      RenderKidsStep(n, m, draws, k);
    }
  }

  /** The children in supplied order: the piece of non-nil child `j` is that
      child's text, indented one level, rendered after the children before it,
      and the child afterwards is what that render leaves. */
  lemma RenderKidsPiece(n: Node, m: nat, j: nat, draws: Draws, k: nat)
    requires n.El? && j < m <= |n.kids| && !n.kids[j].Nil?
    ensures var kr := RenderKids(n, m, draws, k);
      var r := RenderNode(n.kids[j], draws, RenderKids(n, j, draws, k).next);
      && Present(n.kids[..j]) < |kr.pieces| && |kr.after| == m
      && kr.pieces[Present(n.kids[..j])] == Indented(r.html, 1)
      && kr.after[j] == r.after
  {
    RenderKidsShape(n, j, draws, k);
    RenderKidsShape(n, m, draws, k);
    RenderKidsPrefix(n, j + 1, m, draws, k);
    var upTo := RenderKids(n, j + 1, draws, k);
    assert upTo.pieces[|upTo.pieces| - 1] == RenderKids(n, m, draws, k).pieces[|upTo.pieces| - 1];
  }

  /** A non-nil node at position `j` is counted among the first `j + 1`. */
  lemma {:induction false} PresentPrefix(ns: seq<Node>, j: nat)
    requires j < |ns| && !ns[j].Nil?
    ensures Present(ns[..j]) < Present(ns)
    decreases |ns|
  {
    if j < |ns| - 1 {
      assert ns[..|ns| - 1][..j] == ns[..j];
      PresentPrefix(ns[..|ns| - 1], j);
    } else {
      assert ns[..j] == ns[..|ns| - 1];
    }
  }

  /** No non-nil node: nothing is counted. */
  lemma {:induction false} PresentZero(ns: seq<Node>)
    ensures Present(ns) == 0 <==> forall i :: 0 <= i < |ns| ==> ns[i].Nil?
    decreases |ns|
  {
    if ns != [] {
      PresentZero(ns[..|ns| - 1]);
      assert forall i :: 0 <= i < |ns| - 1 ==> ns[..|ns| - 1][i] == ns[i];
    }
  }

  /** A join of non-empty strings is empty only when there is nothing to join. */
  lemma JoinEmpty(ts: seq<string>, sep: string)
    requires forall i :: 0 <= i < |ts| ==> ts[i] != ""
    ensures Join(ts, sep) == "" <==> ts == []
  {
    if |ts| > 1 {
      assert |Join(ts, sep)| >= |ts[0]|;
    }
  }

  /** An element is written `<tag attrs />` exactly when it has no non-nil child,
      so a `Text("")` child still gives the open/close form. */
  lemma SelfClosingIffNoChildren(n: Node, draws: Draws, k: nat)
    requires n.El?
    ensures var r := RenderNode(n, draws, k);
      r.html == SelfClosing(n.tag, AttrStringOf(r.after.attrs)) <==> forall i :: 0 <= i < |n.kids| ==> n.kids[i].Nil?
  {
    var (a, k1) := WithId(Themed(n.theme, n.tag, n.attrs), draws, k);
    var kr := RenderKids(n, |n.kids|, draws, k1);
    RenderKidsShape(n, |n.kids|, draws, k1);
    assert n.kids[..|n.kids|] == n.kids;
    PresentZero(n.kids);
    JoinEmpty(kr.pieces, "\n");
    MarkupSelfClosingIff(n.tag, AttrStringOf(a), Join(kr.pieces, "\n"));
  }

  /** An existing id is never overwritten and no fresh one is requested: a user
      id survives the theme merge, and the id after the merge is the one kept. */
  lemma IdKept(n: Node, draws: Draws, k: nat)
    requires n.El? && "id" in Themed(n.theme, n.tag, n.attrs)
    ensures var r := RenderNode(n, draws, k);
      && "id" in r.after.attrs
      && r.after.attrs["id"] == Themed(n.theme, n.tag, n.attrs)["id"]
      && r.next == RenderKids(n, |n.kids|, draws, k).next
  {
  }

  /** A user id survives the theme merge. */
  lemma UserIdSurvivesTheme(n: Node)
    requires n.El? && "id" in n.attrs
    ensures "id" in Themed(n.theme, n.tag, n.attrs)
    ensures Themed(n.theme, n.tag, n.attrs)["id"] == n.attrs["id"]
  {
    if n.theme.Some? && n.tag in n.theme.value {
      MergedAttrsSpec(n.theme.value[n.tag], n.attrs);
    }
  }

  /** A missing id is requested once, before the children's; it is set exactly
      when the request succeeds, to what the request returned. */
  lemma IdFilled(n: Node, draws: Draws, k: nat)
    requires n.El? && "id" !in Themed(n.theme, n.tag, n.attrs)
    ensures var r := RenderNode(n, draws, k);
      && ("id" in r.after.attrs <==> draws(k).Some?)
      && (draws(k).Some? ==> r.after.attrs["id"] == draws(k).value)
      && r.next == RenderKids(n, |n.kids|, draws, k + 1).next
  {
  }

  /** A second render of an element keeps the id the first one gave it and
      requests no new one. */
  lemma RerenderKeepsId(n: Node, draws: Draws, k: nat, k2: nat)
    requires n.El?
    ensures var a1 := RenderNode(n, draws, k).after;
      var r2 := RenderNode(a1, draws, k2);
      "id" in a1.attrs ==>
        && "id" in r2.after.attrs
        && r2.after.attrs["id"] == a1.attrs["id"]
        && r2.next == RenderKids(a1, |a1.kids|, draws, k2).next
  {
    var a1 := RenderNode(n, draws, k).after;
    if "id" in a1.attrs {
      UserIdSurvivesTheme(a1);
      IdKept(a1, draws, k2);
    }
  }

  /** After a render, an element's attributes are its attributes after the
      theme step and the id step. */
  lemma AttrsAfterRender(n: Node, draws: Draws, k: nat)
    requires n.El?
    ensures RenderNode(n, draws, k).after.attrs == WithId(Themed(n.theme, n.tag, n.attrs), draws, k).0
  {
  }

  /** The id step touches no attribute but `id`. */
  lemma WithIdOnlyId(a: Attrs, draws: Draws, k: nat)
    ensures var b := WithId(a, draws, k).0;
      forall key :: key != "id" ==> (key in b <==> key in a) && (key in b ==> b[key] == a[key])
  {
  }

  /** The theme is merged only when there is one with an entry for the tag:
      otherwise every attribute but `id` is left as it was. With one, every
      attribute but `id` is what `mergeAttrs` gives. */
  lemma ThemeMergedOnlyWhenPresent(n: Node, draws: Draws, k: nat)
    requires n.El?
    ensures var a := RenderNode(n, draws, k).after.attrs;
      && (n.theme.None? || n.tag !in n.theme.value ==>
            forall key :: key != "id" ==> (key in a <==> key in n.attrs) && (key in a ==> a[key] == n.attrs[key]))
      && (n.theme.Some? && n.tag in n.theme.value ==>
            var m := MergedAttrs(n.theme.value[n.tag], n.attrs);
            forall key :: key != "id" ==> (key in a <==> key in m) && (key in a ==> a[key] == m[key]))
  {
    AttrsAfterRender(n, draws, k);
    WithIdOnlyId(Themed(n.theme, n.tag, n.attrs), draws, k);
  }

  /** The theme is merged again on every render, into attributes the previous
      render already merged: with a theme class list `a b` and a user class `c`,
      all three of one group (theme `px-4 px-2`, user `px-1`), the first render
      leaves the class `c b` (`px-1 px-2`) and the second `b b` (`px-2 px-2`). */
  lemma RerenderRemergesTheme(n: Node, a: string, b: string, c: string, draws: Draws, k: nat, k2: nat)
    requires n.El? && n.theme.Some? && n.tag in n.theme.value
    requires "class" in n.theme.value[n.tag] && n.theme.value[n.tag]["class"] == a + " " + b
    requires "class" in n.attrs && n.attrs["class"] == c
    requires IsWord(a) && IsWord(b) && IsWord(c)
    requires ClassPrefix(a) == ClassPrefix(b) == ClassPrefix(c)
    ensures var a1 := RenderNode(n, draws, k).after;
      && "class" in a1.attrs && a1.attrs["class"] == c + " " + b
      && var a2 := RenderNode(a1, draws, k2).after;
        "class" in a2.attrs && a2.attrs["class"] == b + " " + b
  {
    var th := n.theme.value[n.tag];
    var a1 := RenderNode(n, draws, k).after;
    ThemeMergedOnlyWhenPresent(n, draws, k);
    MergedAttrsSpec(th, n.attrs);
    MergeReplacesFirst(a, b, c);
    assert a1.attrs["class"] == c + " " + b;
    ThemeMergedOnlyWhenPresent(a1, draws, k2);
    MergedAttrsSpec(th, a1.attrs);
    MergeReplacesByLast(a, b, c, b);
  }
}
