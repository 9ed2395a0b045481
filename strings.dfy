/**
 The pieces of Go's `strings` package that the renderer relies on, on `seq<char>`
 (a Go string is UTF-8 bytes; a `char` here stands for one decoded rune).
 */
module Strings {

  /** Go's `unicode.IsSpace`: the separators `strings.Fields` splits on. */
  predicate IsSpace(c: char)
  {
    c == ' ' || c == '\t' || c == '\n' || c == '\r' || c == '\U{000B}' || c == '\U{000C}'
    || c == '\U{0085}' || c == '\U{00A0}' || c == '\U{1680}'
    || ('\U{2000}' <= c <= '\U{200A}')
    || c == '\U{2028}' || c == '\U{2029}' || c == '\U{202F}' || c == '\U{205F}' || c == '\U{3000}'
  }

  /** A field of `strings.Fields`: non-empty and free of white space. */
  predicate IsWord(w: string)
  {
    w != [] && forall i :: 0 <= i < |w| ==> !IsSpace(w[i])
  }

  /** Length of the run of non-space characters that starts `s`. */
  function WordLen(s: string): (n: nat)
    ensures n <= |s|
    ensures forall i :: 0 <= i < n ==> !IsSpace(s[i])
    ensures n < |s| ==> IsSpace(s[n])
  {
    if s == [] || IsSpace(s[0]) then 0 else 1 + WordLen(s[1..])
  }

  /** `strings.Fields`: the maximal runs of non-space characters, in order. */
  function Fields(s: string): seq<string>
    decreases |s|
  {
    if s == [] then []
    else if IsSpace(s[0]) then Fields(s[1..])
    else
      var n := WordLen(s);
      [s[..n]] + Fields(s[n..])
  }

  /** Every field is a word: none is empty and none holds white space. */
  lemma {:induction false} FieldsAreWords(s: string)
    ensures forall i :: 0 <= i < |Fields(s)| ==> IsWord(Fields(s)[i])
    decreases |s|
  {
    if s != [] {
      if IsSpace(s[0]) {
        FieldsAreWords(s[1..]);
      } else {
        var n := WordLen(s);
        FieldsAreWords(s[n..]);
        var r := Fields(s);
        forall i | 0 <= i < |r| ensures IsWord(r[i]) {
          if i > 0 {
            assert r[i] == Fields(s[n..])[i - 1];
          }
        }
      }
    }
  }

  /** `strings.Join`. */
  function Join(ts: seq<string>, sep: string): string
  {
    if ts == [] then ""
    else if |ts| == 1 then ts[0]
    else ts[0] + sep + Join(ts[1..], sep)
  }

  /** The index of the first `c` in `s` (`strings.Index` with a one-character separator). */
  function IndexOf(s: string, c: char): (i: nat)
    requires c in s
    ensures i < |s| && s[i] == c && c !in s[..i]
  {
    if s[0] == c then 0 else 1 + IndexOf(s[1..], c)
  }

  /** `strings.Split` with a one-character separator: always at least one piece. */
  function Split(s: string, c: char): (r: seq<string>)
    ensures |r| >= 1
    ensures forall i :: 0 <= i < |r| ==> c !in r[i]
    decreases |s|
  {
    if c !in s then [s]
    else
      var i := IndexOf(s, c);
      [s[..i]] + Split(s[i + 1..], c)
  }

  /** `strings.TrimSuffix`: drops `suffix` once, if `s` ends with it. */
  function TrimSuffix(s: string, suffix: string): (r: string)
    ensures r + suffix == s || r == s
    ensures |suffix| <= |s| && s[|s| - |suffix|..] == suffix ==> r + suffix == s
  {
    if |suffix| <= |s| && s[|s| - |suffix|..] == suffix then s[..|s| - |suffix|] else s
  }

  /** `strings.Repeat` (Go panics on a negative count, so the count is a `nat`). */
  function Repeat(s: string, n: nat): (r: string)
    ensures |r| == n * |s|
    ensures forall i :: 0 <= i < |r| ==> r[i] in s
  {
    if n == 0 then "" else s + Repeat(s, n - 1)
  }

  lemma {:induction false} WordLenOfWord(w: string, rest: string)
    requires forall i :: 0 <= i < |w| ==> !IsSpace(w[i])
    requires rest == [] || IsSpace(rest[0])
    ensures WordLen(w + rest) == |w|
  {
    if w != [] {
      assert (w + rest)[1..] == w[1..] + rest;
      WordLenOfWord(w[1..], rest);
    } else {
      assert w + rest == rest;
    }
  }

  /** Fields undoes a space-join of words: the joined string has no empty field
      and no leading or trailing space. */
  lemma {:induction false} FieldsOfJoin(ts: seq<string>)
    requires forall i :: 0 <= i < |ts| ==> IsWord(ts[i])
    ensures Fields(Join(ts, " ")) == ts
  {
    if ts == [] {
    } else if |ts| == 1 {
      WordLenOfWord(ts[0], "");
      assert ts[0][..|ts[0]|] == ts[0];
      assert ts[0][|ts[0]|..] == "";
    } else {
      var rest := Join(ts[1..], " ");
      var s := ts[0] + " " + rest;
      assert s == ts[0] + (" " + rest);
      WordLenOfWord(ts[0], " " + rest);
      assert s[..|ts[0]|] == ts[0];
      assert s[|ts[0]|..] == " " + rest;
      assert (" " + rest)[1..] == rest;
      FieldsOfJoin(ts[1..]);
      assert [ts[0]] + ts[1..] == ts;
    }
  }

  /** The first occurrence is the only position with `c` and no `c` before it. */
  lemma {:induction false} IndexOfUnique(s: string, c: char, i: nat)
    requires i < |s| && s[i] == c && c !in s[..i]
    ensures IndexOf(s, c) == i
  {
    if i > 0 {
      assert s[0] == s[..i][0];
      assert s[1..][..i - 1] == s[..i][1..];
      IndexOfUnique(s[1..], c, i - 1);
    }
  }

  /** Split undoes a join of pieces that do not contain the separator. */
  lemma {:induction false} SplitOfJoin(ls: seq<string>, c: char)
    requires |ls| >= 1
    requires forall i :: 0 <= i < |ls| ==> c !in ls[i]
    ensures Split(Join(ls, [c]), c) == ls
  {
    if |ls| > 1 {
      var rest := Join(ls[1..], [c]);
      var s := ls[0] + [c] + rest;
      var n := |ls[0]|;
      assert s[..n] == ls[0];
      assert s[n] == c;
      IndexOfUnique(s, c, n);
      assert s[n + 1..] == rest;
      assert Split(s, c) == [ls[0]] + Split(rest, c);
      SplitOfJoin(ls[1..], c);
      assert [ls[0]] + ls[1..] == ls;
    }
  }

  /** Joining a non-empty tail behind a first piece. */
  lemma JoinCons(x: string, tail: seq<string>, sep: string)
    requires tail != []
    ensures Join([x] + tail, sep) == x + sep + Join(tail, sep)
  {
    assert ([x] + tail)[1..] == tail;
  }

  /** Join undoes Split: no character is lost or added. */
  lemma {:induction false} JoinOfSplit(s: string, c: char)
    ensures Join(Split(s, c), [c]) == s
    decreases |s|
  {
    if c in s {
      var i := IndexOf(s, c);
      var tail := Split(s[i + 1..], c);
      JoinOfSplit(s[i + 1..], c);
      assert Split(s, c) == [s[..i]] + tail;
      JoinCons(s[..i], tail, [c]);
      assert s == s[..i] + [c] + s[i + 1..];
    }
  }
}
