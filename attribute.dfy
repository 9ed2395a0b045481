/** Attribute maps and their combinator (html/attribute.go). */
module Attribute {
  import Css

  /** An element's attributes: name to value, no order. */
  type Attrs = map<string, string>

  /** `Attributes(maps...)`: a fresh map holding every key of every argument; where
      several arguments hold a key, the last of them wins (`maps.Copy` overwrites). */
  method Attributes(ms: seq<Attrs>) returns (merged: Attrs)
    ensures forall k :: k in merged <==> exists i :: 0 <= i < |ms| && k in ms[i]
    ensures forall i, k :: 0 <= i < |ms| && k in ms[i] && (forall j :: i < j < |ms| ==> k !in ms[j])
              ==> merged[k] == ms[i][k]
  {
    merged := map[];
    var n := 0;
    while n < |ms|
      invariant 0 <= n <= |ms|
      invariant forall k :: k in merged <==> exists i :: 0 <= i < n && k in ms[i]
      invariant forall i, k :: 0 <= i < n && k in ms[i] && (forall j :: i < j < n ==> k !in ms[j])
                  ==> merged[k] == ms[i][k]
    {
      merged := merged + ms[n];
      n := n + 1;
    }
  }

  /** The shape of every value-taking `Attr*` helper: one attribute. */
  function Single(name: string, value: string): (r: Attrs)
    ensures |r| == 1 && name in r && r[name] == value
  {
    map[name := value]
  }

  /** The shape of the boolean helpers: the attribute's value is its own name. */
  function Flag(name: string): (r: Attrs)
    ensures |r| == 1 && name in r && r[name] == name
  {
    Single(name, name)
  }

  function AttrDisabled(): Attrs { Flag("disabled") }
  function AttrMultiple(): Attrs { Flag("multiple") }
  function AttrReadonly(): Attrs { Flag("readonly") }
  function AttrRequired(): Attrs { Flag("required") }
  function AttrAutoFocus(): Attrs { Flag("autofocus") }
  function AttrHidden(): Attrs { Flag("hidden") }
  function AttrInert(): Attrs { Flag("inert") }
  function AttrItemScope(): Attrs { Flag("itemscope") }

  function AttrClass(value: string): Attrs { Single("class", value) }
  function AttrID(value: string): Attrs { Single("id", value) }
  function AttrHref(value: string): Attrs { Single("href", value) }

  /** `AttrData(name, v)`: one custom data attribute, its key prefixed with `data-`. */
  function AttrData(name: string, value: string): (r: Attrs)
    ensures r.Keys == {"data-" + name} && r["data-" + name] == value
    ensures forall k :: k in r ==> |k| >= 5 && k[..5] == "data-"
  {
    Single("data-" + name, value)
  }

  /** `AttrStyle(s)`: the `style` attribute holding the inline serialisation of `s`. */
  method AttrStyle(s: Css.Style) returns (r: Attrs)
    ensures r.Keys == {"style"} && r["style"] == Css.InlineOf(s)
    ensures r["style"] == "" <==> |s| == 0
  {
    var inline := Css.Inline(s);
    r := Single("style", inline);
  }

  /** The boolean helpers each give one attribute named after itself. */
  lemma FlagHelpers()
    ensures AttrDisabled() == map["disabled" := "disabled"]
    ensures AttrMultiple() == map["multiple" := "multiple"]
    ensures AttrReadonly() == map["readonly" := "readonly"]
    ensures AttrRequired() == map["required" := "required"]
    ensures AttrAutoFocus() == map["autofocus" := "autofocus"]
    ensures AttrHidden() == map["hidden" := "hidden"]
    ensures AttrInert() == map["inert" := "inert"]
    ensures AttrItemScope() == map["itemscope" := "itemscope"]
  {
  }
}
