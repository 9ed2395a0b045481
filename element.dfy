/**
 The `Element` closure of html/element.go as an object. Go's closure captures
 the attribute map and reassigns it on every call (the theme merge) and writes the
 generated `id` into it; here that captured map is the mutable field `attrs` of an
 `Element`, and a call of the closure is the method `Render`. The tag, the theme
 of the context the element was built in and the children never change.
 */
module Elements {
  import opened Wrappers
  import opened Strings
  import opened Attribute
  import opened AttrMerge
  import opened Indent
  import opened Markup
  import R = Render

  /** `uuid.NewV7`: the `k`-th request fails (`None`) or yields an id string. */
  class IdSource {
    const draw: R.Draws
    var calls: nat

    constructor(draw: R.Draws)
      ensures this.draw == draw && calls == 0
    {
      this.draw := draw;
      calls := 0;
    }

    /** One request for a fresh id. */
    method NewId() returns (d: Option<string>)
      modifies this
      ensures d == draw(old(calls)) && calls == old(calls) + 1
    {
      d := draw(calls);
      calls := calls + 1;
    }
  }

  /** A child as an element receives it: nil, a `Text` node, or an element. */
  datatype Child = NilChild | TextChild(s: string) | ElementChild(e: Element)

  /** The elements of a child list. */
  ghost function ChildrenRepr(cs: seq<Child>): set<Element>
  {
    if cs == [] then {}
    else ChildrenRepr(cs[..|cs| - 1]) + if cs[|cs| - 1].ElementChild? then cs[|cs| - 1].e.Repr else {}
  }

  /** One more than the largest height of a child element (0 for none). */
  ghost function ChildrenHeight(cs: seq<Child>): nat
  {
    if cs == [] then 0
    else
      var h := ChildrenHeight(cs[..|cs| - 1]);
      if cs[|cs| - 1].ElementChild? && cs[|cs| - 1].e.height + 1 > h then cs[|cs| - 1].e.height + 1 else h
  }

  class Element {
    const tag: string
    const theme: Option<R.Theme>
    const children: seq<Child>
    /** The map the closure captures; each render writes it back. */
    var attrs: Attrs
    /** This element and every element below it. */
    ghost const Repr: set<Element>
    ghost const height: nat

    /** The children form a tree: each child element lies below this one and
        no element is shared between two children. */
    ghost predicate Valid()
      decreases height
    {
      && this in Repr
      && (forall i :: 0 <= i < |children| && children[i].ElementChild? ==>
            && children[i].e in Repr
            && children[i].e.Repr <= Repr
            && this !in children[i].e.Repr
            && children[i].e.height < height
            && children[i].e.Valid())
      && (forall i, j :: 0 <= i < j < |children| && children[i].ElementChild? && children[j].ElementChild? ==>
            children[i].e.Repr !! children[j].e.Repr)
    }

    /** The elements below child `i`. */
    ghost function ChildRepr(i: nat): set<Element>
      requires i < |children|
    {
      if children[i].ElementChild? then children[i].e.Repr else {}
    }

    /** Child `i` as a node of the tree. */
    ghost function ChildView(i: nat): R.Node
      requires Valid() && i < |children|
      reads ChildRepr(i)
      decreases height, 0, 0
    {
      match children[i]
      case NilChild => R.Nil
      case TextChild(s) => R.Text(s)
      case ElementChild(e) => e.View()
    }

    /** The first `m` children as nodes. */
    ghost function KidsView(m: nat): (r: seq<R.Node>)
      requires Valid() && m <= |children|
      reads Repr - {this}
      ensures |r| == m && forall i :: 0 <= i < m ==> r[i] == ChildView(i)
      decreases height, 1, m
    {
      if m == 0 then [] else KidsView(m - 1) + [ChildView(m - 1)]
    }

    /** This element as a node of the tree. */
    ghost function View(): (n: R.Node)
      requires Valid()
      reads Repr
      ensures n.El? && n.tag == tag && n.theme == theme && n.attrs == attrs && |n.kids| == |children|
      decreases height, 2, 0
    {
      R.El(tag, theme, attrs, KidsView(|children|))
    }

    /** `Element(ctx, tag, attrs, children...)`: the theme is the one in force
        where the element is built. */
    constructor(tag: string, theme: Option<R.Theme>, attrs: Attrs, children: seq<Child>)
      requires forall i :: 0 <= i < |children| && children[i].ElementChild? ==> children[i].e.Valid()
      requires forall i, j :: 0 <= i < j < |children| && children[i].ElementChild? && children[j].ElementChild? ==>
        children[i].e.Repr !! children[j].e.Repr
      ensures Valid()
      ensures this.tag == tag && this.theme == theme && this.attrs == attrs && this.children == children
    {
      this.tag := tag;
      this.theme := theme;
      this.attrs := attrs;
      this.children := children;
      ChildrenBelow(children);
      this.Repr := {this} + ChildrenRepr(children);
      this.height := ChildrenHeight(children);
    }

    /** A call of the closure: the theme's defaults for the tag are merged into
        the captured map, a missing `id` is requested and written into it, the
        non-nil children are called in order and indented one level, and the
        markup is written from the sorted non-empty attributes. */
    method Render(ids: IdSource) returns (html: string)
      requires Valid()
      modifies Repr, ids
      ensures var r := R.RenderNode(old(View()), ids.draw, old(ids.calls));
        html == r.html && View() == r.after && ids.calls == r.next
      decreases height, 3
    {
      ghost var n0 := View();
      ghost var k0 := ids.calls;
      ThemeAndId(ids);
      ghost var k1 := ids.calls;
      var expanded := RenderChildren(ids, n0);
      R.RenderElement(n0, ids.draw, k0, attrs, k1);
      assert View() == R.El(tag, theme, attrs, KidsView(|children|));
      var childrenHtml := Join(expanded, "\n");
      var attrStr := AttrString(attrs);
      html := ElementMarkup(tag, attrStr, childrenHtml);
    }

    /** The first two steps of a call: the theme's defaults for the tag are
        merged into the captured map, then a missing `id` is requested and, when
        the request succeeds, written into it. */
    method ThemeAndId(ids: IdSource)
      modifies this, ids
      ensures (attrs, ids.calls) == R.WithId(R.Themed(theme, tag, old(attrs)), ids.draw, old(ids.calls))
    {
      if theme.Some? && tag in theme.value {
        attrs := MergeAttrs(theme.value[tag], attrs);
      }
      if "id" !in attrs {
        var uid := ids.NewId();
        if uid.Some? {
          attrs := attrs["id" := uid.value];
        }
      }
    }

    /** The children loop of the closure: nil children are skipped, the others
        called in order and their text indented one level. */
    method RenderChildren(ids: IdSource, ghost n0: R.Node) returns (expanded: seq<string>)
      requires Valid() && n0.El? && n0.kids == KidsView(|children|)
      modifies Repr - {this}, ids
      ensures var kr := R.RenderKids(n0, |children|, ids.draw, old(ids.calls));
        expanded == kr.pieces && KidsView(|children|) == kr.after && ids.calls == kr.next
      decreases height, 2
    {
      ghost var k0 := ids.calls;
      ghost var kr := R.RenderKids(n0, 0, ids.draw, k0);
      expanded := [];
      var i := 0;
      while i < |children|
        invariant 0 <= i <= |children|
        invariant kr == R.RenderKids(n0, i, ids.draw, k0)
        invariant expanded == kr.pieces && ids.calls == kr.next && |kr.after| == i
        invariant forall j :: 0 <= j < |children| ==> ChildView(j) == if j < i then kr.after[j] else n0.kids[j]
      {
        expanded, kr := ExpandChild(ids, i, expanded, n0, k0, kr);
        i := i + 1;
      }
      KidsViewIs(kr.after);
    }

    /** The children's nodes, read off one by one. */
    lemma KidsViewIs(s: seq<R.Node>)
      requires Valid() && |s| == |children|
      requires forall j :: 0 <= j < |children| ==> ChildView(j) == s[j]
      ensures KidsView(|children|) == s
    {
    }

    /** One turn of the children loop: a non-nil child is called and its text,
        indented one level, appended; a nil child is skipped. */
    method ExpandChild(ids: IdSource, i: nat, expanded: seq<string>, ghost n0: R.Node, ghost k0: nat, ghost kr: R.KidsRendered)
      returns (expanded': seq<string>, ghost kr': R.KidsRendered)
      requires Valid() && n0.El? && |n0.kids| == |children| && i < |children|
      requires kr == R.RenderKids(n0, i, ids.draw, k0) && expanded == kr.pieces && ids.calls == kr.next
      requires ChildView(i) == n0.kids[i]
      modifies ChildRepr(i), ids
      ensures kr' == R.RenderKids(n0, i + 1, ids.draw, k0) && expanded' == kr'.pieces && ids.calls == kr'.next
      ensures kr'.after == kr.after + [ChildView(i)]
      ensures forall j :: 0 <= j < |children| && j != i ==> ChildView(j) == old(ChildView(j))
      decreases height, 1
    {
      if !children[i].NilChild? {
        var h := CallChild(ids, i);
        var piece := IndentBlock(h, 1);
        expanded' := expanded + [piece];
        kr' := R.KidsRendered(kr.pieces + [piece], kr.after + [ChildView(i)], ids.calls);
      } else {
        expanded' := expanded;
        kr' := R.KidsRendered(kr.pieces, kr.after + [ChildView(i)], kr.next);
      }
    }

    /** `child()` for a non-nil child: a `Text` node yields its string, an
        element renders. */
    method CallChild(ids: IdSource, i: nat) returns (h: string)
      requires Valid() && i < |children| && !children[i].NilChild?
      modifies ChildRepr(i), ids
      ensures var r := R.RenderNode(old(ChildView(i)), ids.draw, old(ids.calls));
        h == r.html && ChildView(i) == r.after && ids.calls == r.next
      ensures forall j :: 0 <= j < |children| && j != i ==> ChildView(j) == old(ChildView(j))
      decreases height, 0
    {
      match children[i] {
        case TextChild(s) =>
          h := s;
        case ElementChild(e) =>
          h := e.Render(ids);
      }
      forall j | 0 <= j < |children| && j != i
        ensures ChildView(j) == old(ChildView(j))
      {
        assert ChildRepr(j) !! ChildRepr(i);
      }
    }
  }

  /** The child elements lie in the union, below the new element. */
  lemma {:induction false} ChildrenBelow(cs: seq<Child>)
    ensures forall i :: 0 <= i < |cs| && cs[i].ElementChild? ==>
      cs[i].e.Repr <= ChildrenRepr(cs) && cs[i].e.height < ChildrenHeight(cs)
  {
    if cs != [] {
      var init := cs[..|cs| - 1];
      ChildrenBelow(init);
      forall i | 0 <= i < |cs| - 1
        ensures cs[i] == init[i]
      {
      }
    }
  }
}
