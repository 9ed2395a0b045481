/** The start tag's attribute text and the element's two shapes
    (html/element.go, the tail of the `Element` closure). */
module Markup {
  import opened Sorting
  import opened Strings
  import opened Attribute

  /** One attribute as written into the start tag, `k="v"`; nothing is escaped. */
  function Token(k: string, v: string): string
  {
    k + "=\"" + v + "\""
  }

  /** The tokens for `keys`, in that order, skipping empty values (and keys
      the map does not have). */
  function TokensFor(a: Attrs, keys: seq<string>): seq<string>
  {
    if keys == [] then []
    else
      var k := keys[|keys| - 1];
      TokensFor(a, keys[..|keys| - 1]) + if k in a && a[k] != "" then [Token(k, a[k])] else []
  }

  /** The sorted attribute tokens of a map. */
  ghost function AttrTokens(a: Attrs): seq<string>
  {
    SortStrings(TokensFor(a, SortedKeys(a.Keys)))
  }

  /** The attribute text of a start tag: the sorted tokens, space-separated. */
  ghost function AttrStringOf(a: Attrs): string
  {
    Join(AttrTokens(a), " ")
  }

  /** The keys whose value is not empty. */
  ghost function NonEmptyKeys(a: Attrs): set<string>
  {
    set k | k in a && a[k] != ""
  }

  /** The attribute loop of `Element`: every non-empty entry becomes a token, in
      whatever order the map is walked; the tokens are then sorted and joined. */
  method AttrString(a: Attrs) returns (s: string)
    ensures s == AttrStringOf(a)
  {
    var parts := [];
    ghost var walk := [];
    var rest := a.Keys;
    while rest != {}
      invariant rest <= a.Keys
      invariant NoDup(walk) && forall x :: x in walk <==> x in a.Keys - rest
      invariant parts == TokensFor(a, walk)
      decreases rest
    {
      var k :| k in rest;
      assert k !in walk;
      if a[k] != "" {
        parts := parts + [Token(k, a[k])];
      }
      walk := walk + [k];
      rest := rest - {k};
    }
    NoDupMultiset(walk, a.Keys);
    TokensForPermutation(a, walk, SortedKeys(a.Keys));
    parts := SortStrings(parts);
    SortedUnique(parts, AttrTokens(a));
    s := Join(parts, " ");
  }

  lemma {:induction false} TokensForConcat(a: Attrs, xs: seq<string>, ys: seq<string>)
    ensures TokensFor(a, xs + ys) == TokensFor(a, xs) + TokensFor(a, ys)
    decreases |ys|
  {
    if ys == [] {
      assert xs + ys == xs;
    } else {
      var init := ys[..|ys| - 1];
      assert (xs + ys)[..|xs + ys| - 1] == xs + init;
      TokensForConcat(a, xs, init);
    }
  }

  /** Taking one key out of the middle of a walk takes out its token. */
  lemma TokensForRemove(a: Attrs, before: seq<string>, x: string, after: seq<string>)
    ensures multiset(TokensFor(a, before + [x] + after))
      == multiset(TokensFor(a, before + after)) + multiset(TokensFor(a, [x]))
  {
    TokensForConcat(a, before, after);
    TokensForConcat(a, before + [x], after);
    TokensForConcat(a, before, [x]);
  }

  /** The last key of `xs` taken out of `ys`, a walk over the same keys. */
  lemma PickOut(xs: seq<string>, ys: seq<string>) returns (before: seq<string>, after: seq<string>)
    requires xs != [] && multiset(xs) == multiset(ys)
    ensures ys == before + [xs[|xs| - 1]] + after
    ensures multiset(before + after) == multiset(xs[..|xs| - 1])
  {
    var x := xs[|xs| - 1];
    assert xs == xs[..|xs| - 1] + [x];
    assert x in multiset(ys);
    var j :| 0 <= j < |ys| && ys[j] == x;
    before, after := ys[..j], ys[j + 1..];
    assert ys == before + [x] + after;
    var m, n := multiset(before + after), multiset(xs[..|xs| - 1]);
    assert m + multiset{x} == n + multiset{x} by {
      assert ys == before + ([x] + after);
      assert multiset([x] + after) == multiset{x} + multiset(after);
    }
    assert m == m + multiset{x} - multiset{x};
    assert n == n + multiset{x} - multiset{x};
  }

  /** The tokens depend on which keys are walked, not on the order of the walk. */
  lemma {:induction false} TokensForPermutation(a: Attrs, xs: seq<string>, ys: seq<string>)
    requires multiset(xs) == multiset(ys)
    ensures multiset(TokensFor(a, xs)) == multiset(TokensFor(a, ys))
    decreases |xs|
  {
    if xs == [] {
      assert |multiset(ys)| == 0;
    } else {
      var x := xs[|xs| - 1];
      var init := xs[..|xs| - 1];
      var before, after := PickOut(xs, ys);
      TokensForPermutation(a, init, before + after);
      assert xs == init + [x];
      TokensForConcat(a, init, [x]);
      TokensForRemove(a, before, x, after);
    }
  }

  /** Token by token: each non-empty entry of `keys` yields its token, and every
      token comes from such an entry. */
  lemma {:induction false} TokensForMembers(a: Attrs, keys: seq<string>)
    ensures forall i :: 0 <= i < |keys| && keys[i] in a && a[keys[i]] != "" ==> Token(keys[i], a[keys[i]]) in TokensFor(a, keys)
    ensures forall t :: t in TokensFor(a, keys) ==>
      exists i :: 0 <= i < |keys| && keys[i] in a && a[keys[i]] != "" && t == Token(keys[i], a[keys[i]])
  {
    if keys != [] {
      var init := keys[..|keys| - 1];
      TokensForMembers(a, init);
      forall t | t in TokensFor(a, keys)
        ensures exists i :: 0 <= i < |keys| && keys[i] in a && a[keys[i]] != "" && t == Token(keys[i], a[keys[i]])
      {
        if t in TokensFor(a, init) {
          var i :| 0 <= i < |init| && init[i] in a && a[init[i]] != "" && t == Token(init[i], a[init[i]]);
          assert keys[i] == init[i];
        } else {
          assert keys[|keys| - 1] == keys[|keys| - 1];
        }
      }
    }
  }

  /** With no key repeated, there is one token per non-empty entry. */
  lemma {:induction false} TokensForCount(a: Attrs, keys: seq<string>)
    requires NoDup(keys)
    ensures |TokensFor(a, keys)| == |set k | k in keys && k in a && a[k] != ""|
  {
    if keys != [] {
      var k := keys[|keys| - 1];
      var init := keys[..|keys| - 1];
      assert NoDup(init);
      TokensForCount(a, init);
      var s0 := set x | x in init && x in a && a[x] != "";
      var s1 := set x | x in keys && x in a && a[x] != "";
      assert k !in init;
      assert keys == init + [k];
      if k !in a || a[k] == "" {
        assert s1 == s0;
      } else {
        assert s1 == s0 + {k};
      }
    }
  }

  /** With no key repeated, a token occurs once per non-empty entry that yields it:
      the loop emits one token per entry even when two entries' tokens coincide. */
  lemma {:induction false} TokensForMultiplicity(a: Attrs, keys: seq<string>, t: string)
    requires NoDup(keys)
    ensures multiset(TokensFor(a, keys))[t] == |YieldingKeys(a, keys, t)|
  {
    if keys != [] {
      var k := keys[|keys| - 1];
      var init := keys[..|keys| - 1];
      assert NoDup(init);
      TokensForMultiplicity(a, init, t);
      var extra := if k in a && a[k] != "" then [Token(k, a[k])] else [];
      assert TokensFor(a, keys) == TokensFor(a, init) + extra;
      assert multiset(TokensFor(a, keys))[t] == multiset(TokensFor(a, init))[t] + multiset(extra)[t];
      YieldingKeysStep(a, keys, t);
    }
  }

  /** The keys among `keys` whose entry yields the token `t`. */
  ghost function YieldingKeys(a: Attrs, keys: seq<string>, t: string): set<string>
  {
    set k | k in keys && k in a && a[k] != "" && Token(k, a[k]) == t
  }

  /** One more key adds itself to the yielding keys exactly when its entry yields `t`. */
  lemma YieldingKeysStep(a: Attrs, keys: seq<string>, t: string)
    requires keys != [] && NoDup(keys)
    ensures var k := keys[|keys| - 1];
      |YieldingKeys(a, keys, t)| == |YieldingKeys(a, keys[..|keys| - 1], t)|
        + if k in a && a[k] != "" && Token(k, a[k]) == t then 1 else 0
  {
    var k := keys[|keys| - 1];
    var init := keys[..|keys| - 1];
    var s0 := YieldingKeys(a, init, t);
    assert keys == init + [k];
    assert k !in init;
    if k in a && a[k] != "" && Token(k, a[k]) == t {
      assert YieldingKeys(a, keys, t) == s0 + {k};
    } else {
      assert YieldingKeys(a, keys, t) == s0;
    }
  }

  /** The walk over the ascending key list visits every key once. */
  lemma SortedKeysListing(a: Attrs)
    ensures var keys := SortedKeys(a.Keys);
      NoDup(keys) && forall k :: k in keys <==> k in a
  {
    var keys := SortedKeys(a.Keys);
    SortedSetStrict(keys, a.Keys);
    forall k ensures k in keys <==> k in a {
      assert k in keys <==> k in multiset(keys);
    }
  }

  /** With no key repeated and every key of the map walked, the tokens are one
      per non-empty entry. */
  lemma TokensForListing(a: Attrs, keys: seq<string>)
    requires NoDup(keys) && forall k :: k in keys <==> k in a
    ensures |TokensFor(a, keys)| == |NonEmptyKeys(a)|
    ensures forall k :: k in a && a[k] != "" ==> Token(k, a[k]) in TokensFor(a, keys)
    ensures forall t :: t in TokensFor(a, keys) ==> exists k :: k in a && a[k] != "" && t == Token(k, a[k])
  {
    TokensForMembers(a, keys);
    TokensForCount(a, keys);
    assert (set k | k in keys && k in a && a[k] != "") == NonEmptyKeys(a);
    forall k | k in a && a[k] != ""
      ensures Token(k, a[k]) in TokensFor(a, keys)
    {
      var i :| 0 <= i < |keys| && keys[i] == k;
    }
  }

  /** The attribute tokens are sorted as whole strings; each non-empty entry
      yields exactly one `k="v"` token and every token comes from one; empty
      values yield nothing. Values are not escaped, so two entries can yield the
      same text (`a` holding `b="c` and `a="b` holding `c`); that text then
      occurs once per such entry. */
  lemma AttrTokensSpec(a: Attrs)
    ensures var ts := AttrTokens(a);
      && Sorted(ts)
      && |ts| == |NonEmptyKeys(a)|
      && (forall k :: k in a && a[k] != "" ==> Token(k, a[k]) in ts)
      && (forall t :: t in ts ==> exists k :: k in a && a[k] != "" && t == Token(k, a[k]))
      && (forall t :: multiset(ts)[t] == |set k | k in a && a[k] != "" && Token(k, a[k]) == t|)
  {
    var keys := SortedKeys(a.Keys);
    var raw := TokensFor(a, keys);
    var ts := AttrTokens(a);
    SortedKeysListing(a);
    TokensForListing(a, keys);
    assert |multiset(ts)| == |multiset(raw)|;
    forall t ensures t in ts <==> t in raw {
      assert t in ts <==> t in multiset(ts);
      assert t in raw <==> t in multiset(raw);
    }
    forall t ensures multiset(ts)[t] == |set k | k in a && a[k] != "" && Token(k, a[k]) == t| {
      TokensForMultiplicity(a, keys, t);
      assert YieldingKeys(a, keys, t) == (set k | k in a && a[k] != "" && Token(k, a[k]) == t);
    }
  }

  lemma {:induction false} LessCommonPrefix(p: string, x: string, y: string)
    ensures Less(p + x, p + y) <==> Less(x, y)
  {
    if p == [] {
      assert p + x == x && p + y == y;
    } else {
      assert (p + x)[0] == p[0] == (p + y)[0];
      assert (p + x)[1..] == p[1..] + x;
      assert (p + y)[1..] == p[1..] + y;
      LessCommonPrefix(p[1..], x, y);
    }
  }

  /** Tokens are compared whole, not by key: a `data-` attribute's token sorts
      before a bare `data` attribute's token, because `-` comes before `=`. */
  lemma DataDashSortsFirst(name: string, v: string, w: string)
    ensures Less(Token("data-" + name, v), Token("data", w))
    ensures Less("data", "data-" + name)
  {
    var x := "-" + name + "=\"" + v + "\"";
    var y := "=\"" + w + "\"";
    assert Token("data-" + name, v) == "data" + x;
    assert Token("data", w) == "data" + y;
    LessCommonPrefix("data", x, y);
    assert "data" + "" == "data";
    assert "data-" + name == "data" + ("-" + name);
    LessCommonPrefix("data", "", "-" + name);
  }

  /** The self-closing form `<tag attrs />`. */
  function SelfClosing(tag: string, attrStr: string): string
  {
    "<" + tag + " " + attrStr + " />"
  }

  /** The element's text: self-closing without children, otherwise the start
      tag, the children on their own lines, and the end tag. */
  function ElementMarkup(tag: string, attrStr: string, childrenHtml: string): string
  {
    if childrenHtml == "" then SelfClosing(tag, attrStr)
    else "<" + tag + " " + attrStr + ">\n" + childrenHtml + "\n</" + tag + ">"
  }

  /** The two shapes never coincide: the text is self-closing exactly when the
      children's text is empty. */
  lemma MarkupSelfClosingIff(tag: string, attrStr: string, childrenHtml: string)
    ensures ElementMarkup(tag, attrStr, childrenHtml) == SelfClosing(tag, attrStr) <==> childrenHtml == ""
  {
    if childrenHtml != "" {
      var n := |tag| + 2 + |attrStr|;
      assert ElementMarkup(tag, attrStr, childrenHtml)[n] == '>';
      assert SelfClosing(tag, attrStr)[n] == ' ';
    }
  }
}
