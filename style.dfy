/** The inline style serialiser of the `css` package (css/style.go). */
module Css {
  import opened Sorting

  /** A CSS declaration block: property name to value. */
  type Style = map<string, string>

  /** One declaration as written into the style attribute. */
  function Declaration(k: string, v: string): string
  {
    k + ":" + v + ";"
  }

  /** The declarations for `keys`, in the order given. */
  function Serialize(s: Style, keys: seq<string>): string
    requires forall i :: 0 <= i < |keys| ==> keys[i] in s
  {
    if keys == [] then ""
    else Serialize(s, keys[..|keys| - 1]) + Declaration(keys[|keys| - 1], s[keys[|keys| - 1]])
  }

  /** What `Inline` yields: every declaration, keys in ascending order. */
  ghost function InlineOf(s: Style): string
  {
    Serialize(s, SortedKeys(s.Keys))
  }

  /** The first half of `Style.Inline`: the keys, gathered in whatever order the
      map is walked and then sorted, which is the ascending key list. */
  method SortedStyleKeys(s: Style) returns (keys: seq<string>)
    ensures keys == SortedKeys(s.Keys)
    ensures forall i :: 0 <= i < |keys| ==> keys[i] in s
  {
    keys := [];
    var rest := s.Keys;
    while rest != {}
      invariant rest <= s.Keys
      invariant NoDup(keys)
      invariant forall x :: x in keys <==> x in s.Keys - rest
      decreases rest
    {
      var k :| k in rest;
      assert k !in keys;
      keys := keys + [k];
      rest := rest - {k};
    }
    SortedListing(keys, s.Keys);
    keys := SortStrings(keys);
    assert forall i :: 0 <= i < |keys| ==> keys[i] in multiset(keys);
  }

  /** `Style.Inline`: writes `k:v;` for every key in ascending order; empty for
      an empty style. */
  method Inline(s: Style) returns (r: string)
    ensures r == InlineOf(s)
    ensures r == "" <==> |s| == 0
  {
    if |s| == 0 {
      assert SortedKeys(s.Keys) == [];
      return "";
    }
    var keys := SortedStyleKeys(s);
    r := WriteDeclarations(s, keys);
    InlineEmptyIff(s);
  }

  /** The second half of `Style.Inline`: the declarations written one by one. */
  method WriteDeclarations(s: Style, keys: seq<string>) returns (r: string)
    requires forall i :: 0 <= i < |keys| ==> keys[i] in s
    ensures r == Serialize(s, keys)
  {
    var sb := "";
    var i := 0;
    assert keys[..0] == [];
    while i < |keys|
      invariant 0 <= i <= |keys|
      invariant sb == Serialize(s, keys[..i])
    {
      var k := keys[i];
      var v := s[k];
      assert keys[..i + 1][..i] == keys[..i];
      sb := sb + Declaration(k, v);
      i := i + 1;
    }
    assert keys[..|keys|] == keys;
    r := sb;
  }

  /** The text is empty exactly for the empty style. */
  lemma InlineEmptyIff(s: Style)
    ensures InlineOf(s) == "" <==> |s| == 0
  {
    var keys := SortedKeys(s.Keys);
    if |s| > 0 {
      var k :| k in s.Keys;
      assert k in multiset(keys);
    }
    SerializeEmpty(s, keys);
  }

  lemma SerializeEmpty(s: Style, keys: seq<string>)
    requires forall i :: 0 <= i < |keys| ==> keys[i] in s
    ensures Serialize(s, keys) == "" <==> keys == []
  {
    if keys != [] {
      var r := Serialize(s, keys);
      assert |r| >= 2;
    }
  }

  /** Total size of the declarations for `keys`. */
  function DeclarationsSize(s: Style, keys: seq<string>): nat
    requires forall i :: 0 <= i < |keys| ==> keys[i] in s
  {
    if keys == [] then 0
    else DeclarationsSize(s, keys[..|keys| - 1]) + |keys[|keys| - 1]| + |s[keys[|keys| - 1]]| + 2
  }

  /** The output is exactly the declarations and nothing else: its length is the
      sum of |k| + |v| + 2 over the keys. */
  lemma {:induction false} SerializeLength(s: Style, keys: seq<string>)
    requires forall i :: 0 <= i < |keys| ==> keys[i] in s
    ensures |Serialize(s, keys)| == DeclarationsSize(s, keys)
  {
    if keys != [] {
      SerializeLength(s, keys[..|keys| - 1]);
    }
  }

  /** The inline text is every declaration and nothing else: its length is the
      sum over the keys of the key, the value and the two separators. */
  lemma InlineLength(s: Style)
    ensures forall i :: 0 <= i < |SortedKeys(s.Keys)| ==> SortedKeys(s.Keys)[i] in s
    ensures |InlineOf(s)| == DeclarationsSize(s, SortedKeys(s.Keys))
  {
    var ks := SortedKeys(s.Keys);
    assert forall i :: 0 <= i < |ks| ==> ks[i] in multiset(ks);
    SerializeLength(s, ks);
  }

  /** A non-empty style ends in `;`. */
  lemma InlineEndsWithSemicolon(s: Style)
    requires |s| > 0
    ensures var r := InlineOf(s); |r| > 0 && r[|r| - 1] == ';'
  {
    var ks := SortedKeys(s.Keys);
    var k :| k in s.Keys;
    assert k in multiset(ks);
  }

  /** Every key is written exactly once and the keys ascend strictly. */
  lemma InlineKeyOrder(s: Style)
    ensures var ks := SortedKeys(s.Keys);
      && |ks| == |s|
      && (forall k :: k in ks <==> k in s)
      && (forall i, j :: 0 <= i < j < |ks| ==> Less(ks[i], ks[j]))
  {
    var ks := SortedKeys(s.Keys);
    SortedSetStrict(ks, s.Keys);
    assert |multiset(ks)| == |multiset(s.Keys)|;
    forall k ensures k in ks <==> k in s {
      assert k in ks <==> k in multiset(ks);
    }
  }

  /** Whatever order the map is walked in, sorting first gives the same text. */
  lemma InlineIgnoresWalkOrder(s: Style, walk: seq<string>)
    requires NoDup(walk) && forall k :: k in walk <==> k in s
    ensures forall i :: 0 <= i < |SortStrings(walk)| ==> SortStrings(walk)[i] in s
    ensures Serialize(s, SortStrings(walk)) == InlineOf(s)
  {
    SortedListing(walk, s.Keys);
    var ks := SortStrings(walk);
    assert forall i :: 0 <= i < |ks| ==> ks[i] in multiset(ks);
  }
}
