/**
 Class-list merging of the element renderer (html/element.go, `mergeClasses` and
 `classPrefix`): a user class replaces the theme class of the same group, where a
 class's group is its text up to and including its first `-`.
 */
module ClassMerge {
  import opened Strings

  /** `classPrefix`: the class's group. */
  function ClassPrefix(c: string): string
  {
    if '-' in c && IndexOf(c, '-') > 0 then c[..IndexOf(c, '-') + 1] else c
  }

  /** A class's group is a prefix of it: up to and including its first `-` when
      that `-` is not the first character, and the whole class otherwise. */
  lemma ClassPrefixSpec(c: string)
    ensures ClassPrefix(c) <= c
    ensures forall i :: 0 < i < |c| && c[i] == '-' && '-' !in c[..i] ==>
      ClassPrefix(c) == c[..i + 1] && ClassPrefix(c)[i] == '-'
    ensures c == [] || c[0] == '-' || '-' !in c ==> ClassPrefix(c) == c
  {
    if '-' in c {
      var k := IndexOf(c, '-');
      forall i | 0 < i < |c| && c[i] == '-' && '-' !in c[..i]
        ensures i == k
      {
        assert i <= k by {
          assert c[..k] == c[..i] + c[i..k];
        }
        assert k <= i by {
          assert c[..i] == c[..k] + c[k..i];
        }
      }
    }
  }

  /** The groups present in a token list. */
  function Prefixes(ts: seq<string>): set<string>
  {
    if ts == [] then {}
    else Prefixes(ts[..|ts| - 1]) + {ClassPrefix(ts[|ts| - 1])}
  }

  /** A group is present exactly when some token has it. */
  lemma {:induction false} PrefixesSpec(ts: seq<string>, p: string)
    ensures p in Prefixes(ts) <==> exists i :: 0 <= i < |ts| && ClassPrefix(ts[i]) == p
  {
    if ts != [] {
      var init := ts[..|ts| - 1];
      PrefixesSpec(init, p);
      if p in Prefixes(init) {
        var i :| 0 <= i < |init| && ClassPrefix(init[i]) == p;
        assert ts[i] == init[i];
      }
      if exists i :: 0 <= i < |ts| && ClassPrefix(ts[i]) == p {
        var i :| 0 <= i < |ts| && ClassPrefix(ts[i]) == p;
        if i < |init| {
          assert init[i] == ts[i];
        }
      }
    }
  }

  /** The last token of group `p`. */
  function LastOfGroup(us: seq<string>, p: string): (u: string)
    requires p in Prefixes(us)
    ensures u in us && ClassPrefix(u) == p
  {
    if ClassPrefix(us[|us| - 1]) == p then us[|us| - 1]
    else
      var u := LastOfGroup(us[..|us| - 1], p);
      assert u in us[..|us| - 1];
      u
  }

  /** Position `j` of the result: the theme token, or, if it is the first theme
      token of a group the user also names, the user's last token of that group. */
  function ThemeSlot(ts: seq<string>, us: seq<string>, j: int): string
    requires 0 <= j < |ts|
  {
    var p := ClassPrefix(ts[j]);
    if p in Prefixes(us) && p !in Prefixes(ts[..j]) then LastOfGroup(us, p) else ts[j]
  }

  /** The theme tokens, each kept or replaced. */
  function KeptOrReplaced(ts: seq<string>, us: seq<string>): (r: seq<string>)
    ensures |r| == |ts| && forall j :: 0 <= j < |ts| ==> r[j] == ThemeSlot(ts, us, j)
  {
    seq(|ts|, j requires 0 <= j < |ts| => ThemeSlot(ts, us, j))
  }

  /** The user tokens appended after the theme tokens: in their order, those whose
      group no theme token has, the first of each group only. */
  function Leftover(ts: seq<string>, us: seq<string>): seq<string>
  {
    if us == [] then []
    else
      var init := us[..|us| - 1];
      var u := us[|us| - 1];
      Leftover(ts, init) + if ClassPrefix(u) !in Prefixes(ts) && ClassPrefix(u) !in Prefixes(init) then [u] else []
  }

  /** The merged token list. */
  function MergedTokens(ts: seq<string>, us: seq<string>): seq<string>
  {
    KeptOrReplaced(ts, us) + Leftover(ts, us)
  }

  /** What `mergeClasses` returns. */
  function MergedClasses(themeClass: string, userClass: string): string
  {
    Join(MergedTokens(Fields(themeClass), Fields(userClass)), " ")
  }

  /** First loop of `mergeClasses`: each user group mapped to its last token
      (a later token of the same group overwrites the entry). */
  method GroupLast(userList: seq<string>) returns (userPrefixes: map<string, string>)
    ensures userPrefixes.Keys == Prefixes(userList)
    ensures forall p :: p in userPrefixes ==> userPrefixes[p] == LastOfGroup(userList, p)
  {
    userPrefixes := map[];
    var i := 0;
    while i < |userList|
      invariant 0 <= i <= |userList|
      invariant userPrefixes.Keys == Prefixes(userList[..i])
      invariant forall p :: p in userPrefixes ==> userPrefixes[p] == LastOfGroup(userList[..i], p)
    {
      assert userList[..i + 1][..i] == userList[..i];
      var prefix := ClassPrefix(userList[i]);
      userPrefixes := userPrefixes[prefix := userList[i]];
      i := i + 1;
    }
    assert userList[..i] == userList;
  }

  /** One theme token's step: the slot is the user's token exactly when the
      token's group is still unconsumed, and the step consumes that group. */
  lemma ReplaceStep(ts: seq<string>, us: seq<string>, j: int, up: map<string, string>)
    requires 0 <= j < |ts|
    requires up.Keys == Prefixes(us) - Prefixes(ts[..j])
    requires forall p :: p in up ==> up[p] == LastOfGroup(us, p)
    ensures var p := ClassPrefix(ts[j]);
      && ThemeSlot(ts, us, j) == (if p in up then up[p] else ts[j])
      && (up - {p}).Keys == Prefixes(us) - Prefixes(ts[..j + 1])
  {
    assert ts[..j + 1][..j] == ts[..j];
  }

  /** Second loop of `mergeClasses`: each theme token kept, or replaced by the
      user's token of its group, that group then being consumed. */
  method ReplaceThemeTokens(themeList: seq<string>, userList: seq<string>, groups: map<string, string>)
    returns (merged: seq<string>, userPrefixes: map<string, string>)
    requires groups.Keys == Prefixes(userList)
    requires forall p :: p in groups ==> groups[p] == LastOfGroup(userList, p)
    ensures merged == KeptOrReplaced(themeList, userList)
    ensures userPrefixes.Keys == Prefixes(userList) - Prefixes(themeList)
  {
    userPrefixes := groups;
    merged := [];
    var j := 0;
    while j < |themeList|
      invariant 0 <= j <= |themeList|
      invariant merged == KeptOrReplaced(themeList, userList)[..j]
      invariant userPrefixes.Keys == Prefixes(userList) - Prefixes(themeList[..j])
      invariant forall p :: p in userPrefixes ==> userPrefixes[p] == LastOfGroup(userList, p)
    {
      ReplaceStep(themeList, userList, j, userPrefixes);
      ghost var all := KeptOrReplaced(themeList, userList);
      assert all[..j + 1] == all[..j] + [ThemeSlot(themeList, userList, j)];
      var prefix := ClassPrefix(themeList[j]);
      if prefix in userPrefixes {
        merged := merged + [userPrefixes[prefix]];
        userPrefixes := userPrefixes - {prefix};
      } else {
        merged := merged + [themeList[j]];
      }
      j := j + 1;
    }
    assert themeList[..j] == themeList;
    assert KeptOrReplaced(themeList, userList)[..j] == KeptOrReplaced(themeList, userList);
  }

  /** Third loop of `mergeClasses`: the user tokens whose group is still
      unconsumed, in order, each consuming its group. */
  method AppendLeftover(themeList: seq<string>, userList: seq<string>, kept: seq<string>, groups: map<string, string>)
    returns (merged: seq<string>)
    requires groups.Keys == Prefixes(userList) - Prefixes(themeList)
    ensures merged == kept + Leftover(themeList, userList)
  {
    var userPrefixes := groups;
    merged := kept;
    var k := 0;
    assert userList[..0] == [];
    while k < |userList|
      invariant 0 <= k <= |userList|
      invariant merged == kept + Leftover(themeList, userList[..k])
      invariant userPrefixes.Keys == Prefixes(userList) - Prefixes(themeList) - Prefixes(userList[..k])
    {
      assert userList[..k + 1][..k] == userList[..k];
      var prefix := ClassPrefix(userList[k]);
      assert prefix in Prefixes(userList) by {
        PrefixesSpec(userList, prefix);
      }
      if prefix in userPrefixes {
        merged := merged + [userList[k]];
        userPrefixes := userPrefixes - {prefix};
      }
      k := k + 1;
    }
    assert userList[..k] == userList;
  }

  /** `mergeClasses`: the three loops above, then a single-space join. */
  method MergeClasses(themeClass: string, userClass: string) returns (r: string)
    ensures r == MergedClasses(themeClass, userClass)
  {
    var themeList := Fields(themeClass);
    var userList := Fields(userClass);
    var userPrefixes := GroupLast(userList);
    var merged;
    merged, userPrefixes := ReplaceThemeTokens(themeList, userList, userPrefixes);
    merged := AppendLeftover(themeList, userList, merged, userPrefixes);
    r := Join(merged, " ");
  }

  /** The user token that replaces a theme token is the LAST user token of the
      group: the first loop overwrites the map entry for each later token. */
  lemma LastOfGroupIsLast(us: seq<string>, p: string)
    requires p in Prefixes(us)
    ensures exists i :: (0 <= i < |us| && us[i] == LastOfGroup(us, p) && ClassPrefix(us[i]) == p
      && forall i' :: i < i' < |us| ==> ClassPrefix(us[i']) != p)
  {
    var i := LastOfGroupIndex(us, p);
  }

  /** Where the last token of group `p` sits. */
  lemma {:induction false} LastOfGroupIndex(us: seq<string>, p: string) returns (i: nat)
    requires p in Prefixes(us)
    ensures i < |us| && us[i] == LastOfGroup(us, p) && ClassPrefix(us[i]) == p
    ensures forall i' :: i < i' < |us| ==> ClassPrefix(us[i']) != p
  {
    var n := |us| - 1;
    if ClassPrefix(us[n]) == p {
      i := n;
    } else {
      var init := us[..n];
      assert p in Prefixes(init);
      assert LastOfGroup(us, p) == LastOfGroup(init, p);
      i := LastOfGroupIndex(init, p);
      assert us[i] == init[i];
      forall i' | i < i' < |us| ensures ClassPrefix(us[i']) != p {
        if i' < n {
          assert us[i'] == init[i'];
        }
      }
    }
  }

  /** Each of the first |theme| positions holds the theme token or a user token of
      the same group; where it is a user token, it is the last of its group. */
  lemma ThemePositions(ts: seq<string>, us: seq<string>, j: int)
    requires 0 <= j < |ts|
    ensures var m := MergedTokens(ts, us);
      && ClassPrefix(m[j]) == ClassPrefix(ts[j])
      && (m[j] == ts[j] || m[j] in us)
      && (m[j] != ts[j] ==> exists i :: (0 <= i < |us| && us[i] == m[j]
            && forall i' :: i < i' < |us| ==> ClassPrefix(us[i']) != ClassPrefix(ts[j])))
  {
    var p := ClassPrefix(ts[j]);
    if p in Prefixes(us) && p !in Prefixes(ts[..j]) {
      LastOfGroupIsLast(us, p);
    }
  }

  /** A user group replaces at most one theme token: once the group is consumed,
      later theme tokens of the same group are kept. */
  lemma ReplacedAtMostOnce(ts: seq<string>, us: seq<string>, j1: int, j2: int)
    requires 0 <= j1 < j2 < |ts| && ClassPrefix(ts[j1]) == ClassPrefix(ts[j2])
    ensures MergedTokens(ts, us)[j2] == ts[j2]
  {
    assert ts[..j2][j1] == ts[j1];
    PrefixesSpec(ts[..j2], ClassPrefix(ts[j2]));
  }

  lemma {:induction false} PrefixesConcat(a: seq<string>, b: seq<string>)
    ensures Prefixes(a + b) == Prefixes(a) + Prefixes(b)
  {
    if b != [] {
      var n := |b| - 1;
      assert (a + b)[..|a + b| - 1] == a + b[..n];
      PrefixesConcat(a, b[..n]);
    } else {
      assert a + b == a;
    }
  }

  /** Two lists whose tokens agree group by group have the same groups. */
  lemma {:induction false} PrefixesPointwise(a: seq<string>, b: seq<string>)
    requires |a| == |b| && forall i :: 0 <= i < |a| ==> ClassPrefix(a[i]) == ClassPrefix(b[i])
    ensures Prefixes(a) == Prefixes(b)
  {
    if a != [] {
      PrefixesPointwise(a[..|a| - 1], b[..|b| - 1]);
    }
  }

  /** The appended user tokens: user tokens, one per group that no theme token
      has, every such group present, no group twice. */
  lemma {:induction false} LeftoverSpec(ts: seq<string>, us: seq<string>)
    ensures var l := Leftover(ts, us);
      && (forall a :: 0 <= a < |l| ==> l[a] in us && ClassPrefix(l[a]) !in Prefixes(ts))
      && Prefixes(l) == Prefixes(us) - Prefixes(ts)
      && (forall a, b :: 0 <= a < b < |l| ==> ClassPrefix(l[a]) != ClassPrefix(l[b]))
  {
    if us != [] {
      var init := us[..|us| - 1];
      var u := us[|us| - 1];
      var l0 := Leftover(ts, init);
      LeftoverSpec(ts, init);
      var p := ClassPrefix(u);
      if p !in Prefixes(ts) && p !in Prefixes(init) {
        var l := l0 + [u];
        PrefixesConcat(l0, [u]);
        assert Prefixes([u]) == {p} by {
          assert [u][..0] == [];
        }
        forall a, b | 0 <= a < b < |l| ensures ClassPrefix(l[a]) != ClassPrefix(l[b]) {
          if b == |l| - 1 {
            assert l[a] == l0[a];
            PrefixesSpec(l0, ClassPrefix(l0[a]));
          } else {
            assert l[a] == l0[a] && l[b] == l0[b];
          }
        }
        forall a | 0 <= a < |l| ensures l[a] in us {
          if a < |l0| {
            assert l[a] == l0[a] && l0[a] in init;
          }
        }
      } else {
        assert Leftover(ts, us) == l0;
        assert Prefixes(us) == Prefixes(init) + {p};
        forall a | 0 <= a < |l0| ensures l0[a] in us {
          assert l0[a] in init;
        }
      }
    }
  }

  /** Where the appended tokens come from: at increasing user positions, each the
      first user token of its group, so the appended list is a subsequence of
      the user list. */
  lemma {:induction false} LeftoverPositions(ts: seq<string>, us: seq<string>) returns (idx: seq<nat>)
    ensures var l := Leftover(ts, us);
      && |idx| == |l|
      && (forall a :: 0 <= a < |idx| ==> idx[a] < |us| && us[idx[a]] == l[a])
      && (forall a :: 0 <= a < |idx| ==> forall i :: 0 <= i < idx[a] ==> ClassPrefix(us[i]) != ClassPrefix(l[a]))
      && (forall a, b :: 0 <= a < b < |idx| ==> idx[a] < idx[b])
  {
    if us == [] {
      idx := [];
    } else {
      var n := |us| - 1;
      var init := us[..n];
      var u := us[n];
      var l0 := Leftover(ts, init);
      var idx0 := LeftoverPositions(ts, init);
      forall a | 0 <= a < |idx0|
        ensures us[idx0[a]] == l0[a]
        ensures forall i :: 0 <= i < idx0[a] ==> ClassPrefix(us[i]) != ClassPrefix(l0[a])
      {
        assert us[idx0[a]] == init[idx0[a]];
        forall i | 0 <= i < idx0[a] ensures ClassPrefix(us[i]) != ClassPrefix(l0[a]) {
          assert us[i] == init[i];
        }
      }
      var p := ClassPrefix(u);
      if p !in Prefixes(ts) && p !in Prefixes(init) {
        idx := idx0 + [n];
        forall i | 0 <= i < n ensures ClassPrefix(us[i]) != p {
          assert us[i] == init[i];
          PrefixesSpec(init, p);
        }
      } else {
        idx := idx0;
      }
    }
  }

  /** No group is lost or invented: the merged list has exactly the groups of
      the theme list and the user list together. */
  lemma MergedGroups(ts: seq<string>, us: seq<string>)
    ensures Prefixes(MergedTokens(ts, us)) == Prefixes(ts) + Prefixes(us)
  {
    var kept := KeptOrReplaced(ts, us);
    forall j | 0 <= j < |ts| ensures ClassPrefix(kept[j]) == ClassPrefix(ts[j]) {
      ThemePositions(ts, us, j);
    }
    PrefixesPointwise(kept, ts);
    LeftoverSpec(ts, us);
    PrefixesConcat(kept, Leftover(ts, us));
  }

  /** Every merged token is a theme token or a user token. */
  lemma MergedFromInputs(ts: seq<string>, us: seq<string>)
    ensures forall x :: x in MergedTokens(ts, us) ==> x in ts || x in us
  {
    var kept := KeptOrReplaced(ts, us);
    forall j | 0 <= j < |ts| ensures kept[j] in ts || kept[j] in us {
      ThemePositions(ts, us, j);
    }
    LeftoverSpec(ts, us);
  }

  /** The result is the merged tokens joined by single spaces: splitting it again
      gives them back, so it has no empty class and no leading or trailing space. */
  lemma MergedClassesFields(themeClass: string, userClass: string)
    ensures Fields(MergedClasses(themeClass, userClass)) == MergedTokens(Fields(themeClass), Fields(userClass))
  {
    var ts, us := Fields(themeClass), Fields(userClass);
    FieldsAreWords(themeClass);
    FieldsAreWords(userClass);
    MergedFromInputs(ts, us);
    var m := MergedTokens(ts, us);
    assert forall i :: 0 <= i < |m| ==> m[i] in m;
    FieldsOfJoin(m);
  }

  /** Without user classes the theme list is kept as it is. */
  lemma NoUserClasses(ts: seq<string>)
    ensures MergedTokens(ts, []) == ts
  {
  }

  /** Merging space-joined class lists merges their token lists. */
  lemma MergedClassesOfJoin(ts: seq<string>, us: seq<string>)
    requires forall i :: 0 <= i < |ts| ==> IsWord(ts[i])
    requires forall i :: 0 <= i < |us| ==> IsWord(us[i])
    ensures MergedClasses(Join(ts, " "), Join(us, " ")) == Join(MergedTokens(ts, us), " ")
  {
    FieldsOfJoin(ts);
    FieldsOfJoin(us);
  }

  /** The group of a class whose first `-` is at `i > 0`. */
  lemma ClassPrefixAt(c: string, i: nat)
    requires 0 < i < |c| && c[i] == '-' && forall j :: 0 <= j < i ==> c[j] != '-'
    ensures ClassPrefix(c) == c[..i + 1]
  {
    ClassPrefixSpec(c);
    assert '-' !in c[..i];
  }

  /** The group of a class without a `-`, or whose first character is the `-`. */
  lemma ClassPrefixNoDash(c: string)
    requires '-' !in c || c[0] == '-'
    ensures ClassPrefix(c) == c
  {
    ClassPrefixSpec(c);
  }

  /** A user class of the first theme class's group takes that class's place;
      the second theme class stays, whatever its group. */
  lemma ReplaceFirst(a: string, b: string, c: string)
    requires ClassPrefix(a) == ClassPrefix(c)
    ensures MergedTokens([a, b], [c]) == [c, b]
  {
    var ts, us := [a, b], [c];
    assert us[..0] == [] && ts[..0] == [];
    assert ts[..1] == [a];
    assert Prefixes(us) == {ClassPrefix(c)};
    assert Prefixes(ts[..1]) == {ClassPrefix(a)};
    assert ThemeSlot(ts, us, 0) == c by {
      assert LastOfGroup(us, ClassPrefix(a)) == c;
    }
    assert ThemeSlot(ts, us, 1) == b;
    assert KeptOrReplaced(ts, us) == [c, b];
    assert Prefixes(ts) == {ClassPrefix(a), ClassPrefix(b)};
    assert Leftover(ts, us) == [];
  }

  /** Of two user classes of one group, the last replaces the theme class. */
  lemma ReplaceByLast(a: string, b: string, c: string, d: string)
    requires ClassPrefix(a) == ClassPrefix(b) == ClassPrefix(c) == ClassPrefix(d)
    ensures MergedTokens([a, b], [c, d]) == [d, b]
  {
    var ts, us := [a, b], [c, d];
    var p := ClassPrefix(a);
    assert us[..0] == [] && ts[..0] == [];
    assert ts[..1] == [a] && us[..1] == [c];
    assert Prefixes(us[..1]) == {p};
    assert Prefixes(us) == {p};
    assert Prefixes(ts[..1]) == {p};
    assert ThemeSlot(ts, us, 0) == d by {
      assert LastOfGroup(us, p) == d;
    }
    assert ThemeSlot(ts, us, 1) == b;
    assert KeptOrReplaced(ts, us) == [d, b];
    assert Prefixes(ts) == {p};
    assert Leftover(ts, us[..1]) == [];
    assert Leftover(ts, us) == [];
  }

  /** A user class of a group no theme class has is appended. */
  lemma AppendNewGroup(a: string, b: string, c: string)
    requires ClassPrefix(c) != ClassPrefix(a) && ClassPrefix(c) != ClassPrefix(b)
    ensures MergedTokens([a, b], [c]) == [a, b, c]
  {
    var ts, us := [a, b], [c];
    assert us[..0] == [] && ts[..0] == [];
    assert ts[..1] == [a];
    assert Prefixes(us) == {ClassPrefix(c)};
    assert Prefixes(ts[..1]) == {ClassPrefix(a)};
    assert Prefixes(ts) == {ClassPrefix(a), ClassPrefix(b)};
    assert KeptOrReplaced(ts, us) == [a, b];
    assert Leftover(ts, us) == [c];
  }

  /** Classes of different groups are both kept, the theme's first. */
  lemma KeepDifferentGroups(a: string, c: string)
    requires ClassPrefix(c) != ClassPrefix(a)
    ensures MergedTokens([a], [c]) == [a, c]
  {
    var ts, us := [a], [c];
    assert us[..0] == [] && ts[..0] == [];
    assert Prefixes(us) == {ClassPrefix(c)};
    assert Prefixes(ts) == {ClassPrefix(a)};
    assert KeptOrReplaced(ts, us) == [a];
    assert Leftover(ts, us) == [c];
  }

  /** Two or three tokens, space-joined. */
  lemma JoinSmall(a: string, b: string, c: string)
    ensures Join([a], " ") == a
    ensures Join([a, b], " ") == a + " " + b
    ensures Join([a, b, c], " ") == a + " " + b + " " + c
  {
    assert [a, b][1..] == [b];
    assert [a, b, c][1..] == [b, c];
    assert [b, c][1..] == [c];
    assert Join([b, c], " ") == b + " " + c;
    assert Join([a, b, c], " ") == a + " " + (b + " " + c);
    assert a + " " + (b + " " + c) == a + " " + b + " " + c;
  }

  /** On class lists: theme `bg-red-500 text-sm` with user `bg-blue-300` gives
      `bg-blue-300 text-sm`, and theme `px-4 px-2` with user `px-1` gives
      `px-1 px-2` (only the first `px-` class is replaced). */
  lemma MergeReplacesFirst(a: string, b: string, c: string)
    requires IsWord(a) && IsWord(b) && IsWord(c)
    requires ClassPrefix(a) == ClassPrefix(c)
    ensures MergedClasses(a + " " + b, c) == c + " " + b
  {
    ReplaceFirst(a, b, c);
    JoinSmall(a, b, "");
    JoinSmall(c, b, "");
    MergedClassesOfJoin([a, b], [c]);
  }

  /** On class lists: theme `px-4 px-2` with user `px-1 px-2` gives `px-2 px-2`. */
  lemma MergeReplacesByLast(a: string, b: string, c: string, d: string)
    requires IsWord(a) && IsWord(b) && IsWord(c) && IsWord(d)
    requires ClassPrefix(a) == ClassPrefix(b) == ClassPrefix(c) == ClassPrefix(d)
    ensures MergedClasses(a + " " + b, c + " " + d) == d + " " + b
  {
    ReplaceByLast(a, b, c, d);
    JoinSmall(a, b, "");
    JoinSmall(c, d, "");
    JoinSmall(d, b, "");
    MergedClassesOfJoin([a, b], [c, d]);
  }

  /** On class lists: theme `p-2 rounded` with user `m-4` gives `p-2 rounded m-4`. */
  lemma MergeAppendsNewGroup(a: string, b: string, c: string)
    requires IsWord(a) && IsWord(b) && IsWord(c)
    requires ClassPrefix(c) != ClassPrefix(a) && ClassPrefix(c) != ClassPrefix(b)
    ensures MergedClasses(a + " " + b, c) == a + " " + b + " " + c
  {
    AppendNewGroup(a, b, c);
    JoinSmall(a, b, c);
    JoinSmall(c, "", "");
    MergedClassesOfJoin([a, b], [c]);
  }

  /** On class lists: theme `btn` with user `btn-primary` gives `btn btn-primary`,
      because `btn` has no `-` and is a group of its own. */
  lemma MergeKeepsDifferentGroups(a: string, c: string)
    requires IsWord(a) && IsWord(c)
    requires ClassPrefix(c) != ClassPrefix(a)
    ensures MergedClasses(a, c) == a + " " + c
  {
    KeepDifferentGroups(a, c);
    JoinSmall(a, c, "");
    JoinSmall(c, "", "");
    MergedClassesOfJoin([a], [c]);
  }

  /** `btn` and `btn-primary` are of different groups. */
  lemma GroupOfDashedExtension(a: string, x: string)
    requires a != [] && '-' !in a
    ensures ClassPrefix(a) == a
    ensures ClassPrefix(a + "-" + x) == a + "-"
  {
    ClassPrefixNoDash(a);
    var c := a + "-" + x;
    forall j | 0 <= j < |a| ensures c[j] != '-' {
      assert c[j] == a[j];
    }
    ClassPrefixAt(c, |a|);
    assert c[..|a| + 1] == a + "-";
  }
}
