# Wave HTML element core, in Dafny

This project models the rendering core of the Wave Go library (`html` and `css` packages).

- **Element render.** An `Element` node is a closure over a tag, a theme context, an attribute map and child nodes. Calling it:
  - merges the theme's default attributes for the tag into the map (`mergeAttrs`), with class lists merged group by group (`mergeClasses`, `classPrefix`);
  - fills in a missing `id` from a fresh identifier;
  - calls the non-nil children in order, indents each one's text by one level (`indentBlock`) and joins the pieces;
  - writes the markup, using the sorted `k="v"` tokens of the non-empty attributes and a self-closing form exactly when every child is nil (a `Text("")` child still gives the open and close form).
- **Attributes.** `Attributes` combines attribute maps, with the last one winning. The `Attr*` helpers build one-entry maps.
- **Style.** `Style.Inline` serialises a CSS declaration map as `k:v;` pairs in ascending key order.

## How it is built

Each source routine that works step by step is a Dafny `method` with loops, proved against a specification function. The properties are stated about that function and proved as lemmas.

| Module | File | Models |
|---|---|---|
| Strings | strings.dfy | Go's `strings.Fields`, `Split`, `Join`, `TrimSuffix` and `Repeat`, with round-trip lemmas |
| Sorting | sorting.dfy | Go's string `<`, `sort.Strings` (specified as a sorted permutation and computed here by insertion), and the fact that a sorted permutation is unique |
| Css | style.dfy | `Style.Inline` |
| Attribute | attribute.dfy | `Attributes`, `AttrData`, `AttrStyle` and the shapes of the other helpers |
| ClassMerge | classes.dfy | `classPrefix` and `mergeClasses`: three loops, proved against `MergedTokens` |
| AttrMerge | merge_attrs.dfy | `mergeAttrs` |
| Indent | indent.dfy | `indentBlock`, with the lines rewritten in place in an array |
| Markup | markup.dfy | the attribute string and the two shapes of an element's markup |
| Render | render.dfy | one call of a node as a function `RenderNode` over a `Node` tree. The function returns the text, the tree after the call, and the number of id requests made |
| Elements | element.dfy | the `Element` closure as a class `Element`, with a mutable `attrs` map and owned children. Its `Render` method is proved equal to `RenderNode`. `IdSource` stands in for `uuid.NewV7` |

## Model

| member | source | states |
|---|---|---|
| ClassMerge.ClassPrefixSpec | html/element.go:96-101 | The group of a class is a prefix of it. It runs through the first `-` when that dash is not at position 0; otherwise it is the whole class |
| ClassMerge.ClassPrefixAt | html/element.go:97-98 | A class whose first dash sits at `i > 0` has group `c[..i+1]` |
| ClassMerge.ClassPrefixNoDash | html/element.go:97-100 | A class without a dash, or one whose dash comes first, is its own group |
| ClassMerge.GroupOfDashedExtension | html/element.go:96-101 | A bare class such as `btn` and its dashed extension `btn-primary` fall in different groups (`btn` and `btn-`) |
| ClassMerge.PrefixesSpec | html/element.go:63-67 | A group is among a list's groups exactly when some token of the list has it |
| ClassMerge.GroupLast | html/element.go:63-67 | The first loop maps each user group to the last user token of that group, and holds no other key |
| ClassMerge.LastOfGroupIsLast | html/element.go:64-66 | The token recorded for a group is a user token of that group, and no later user token shares the group |
| ClassMerge.ReplaceThemeTokens | html/element.go:72-80 | Each theme token is kept, or replaced by the recorded user token of its group, which then consumes the group. Afterwards the groups left are the user groups that no theme token has |
| ClassMerge.ReplaceStep | html/element.go:73-79 | One turn of the second loop yields the specified slot and removes exactly that token's group from the unconsumed set |
| ClassMerge.AppendLeftover | html/element.go:83-89 | The third loop appends exactly the specified leftover user tokens, in user order |
| ClassMerge.MergeClasses | html/element.go:57-92 | `mergeClasses` returns the merged token list, as the specification function `MergedTokens` defines it, joined with single spaces |
| ClassMerge.ThemePositions | html/element.go:72-80 | Every theme position keeps its group. It holds the theme token or a user token. A user token there is the last of its group among the user tokens |
| ClassMerge.ReplacedAtMostOnce | html/element.go:74-76 | A user group replaces at most one theme token: a later theme token of a consumed group is kept |
| ClassMerge.LeftoverSpec | html/element.go:83-89 | The appended tokens are user tokens whose group no theme token has. Every such group appears exactly once |
| ClassMerge.LeftoverPositions | html/element.go:83-89 | The appended tokens sit at increasing user positions, each being the first user token of its group. So they form a subsequence of the user list |
| ClassMerge.MergedGroups | html/element.go:57-92 | The merged list has exactly the groups of the theme list and the user list together: none is lost or invented |
| ClassMerge.MergedFromInputs | html/element.go:57-92 | Every merged token comes from the theme list or the user list |
| ClassMerge.NoUserClasses | html/element.go:72-80 | Without user classes, the theme tokens are kept unchanged |
| ClassMerge.MergedClassesFields | html/element.go:58-59 | Splitting the result into fields gives back the merged tokens. So the result has no empty class and no stray spaces |
| ClassMerge.MergedClassesOfJoin | html/element.go:57-92 | Merging two space-joined class lists is the same as merging their token lists |
| ClassMerge.MergeReplacesFirst | html/element.go:72-80 | Example: theme `bg-red-500 text-sm` with user `bg-blue-300` gives `bg-blue-300 text-sm` |
| ClassMerge.MergeReplacesByLast | html/element.go:63-80 | Example: theme `px-4 px-2` with user `px-1 px-2` gives `px-2 px-2`. The last user token replaces the first theme token of the group, and the second theme token is kept |
| ClassMerge.MergeAppendsNewGroup | html/element.go:83-89 | Example: a user class of a new group is appended after the theme's (`p-2 rounded` with `m-4` gives `p-2 rounded m-4`) |
| ClassMerge.MergeKeepsDifferentGroups | html/element.go:57-92 | Tokens of different groups are all kept, theme first (`btn` with `btn-primary` gives `btn btn-primary`) |
| AttrMerge.MergeAttrs | html/element.go:35-53 | `mergeAttrs` builds a fresh map equal to the specification function `MergedAttrs`: the theme, overlaid with the user entries, with the class merged |
| AttrMerge.CopyAttrs | html/element.go:36-41 | The first loop copies the theme map entry by entry into a map equal to it |
| AttrMerge.OverlayStep | html/element.go:44-50 | One more user entry changes the merge at its own key only, through `mergeClasses` when the key is `class` |
| AttrMerge.MergedAttrsSpec | html/element.go:35-53 | The keys are those of both maps. A theme-only key keeps the theme's value, and any other user key takes the user's value. The user's `class` is merged with the theme's class, which is empty when the theme has none |
| AttrMerge.MergedAttrsKeepsUserValue | html/element.go:47-48 | No key but `class` is ever merged: the user's value wins, and the theme's value applies only when the user has none |
| Indent.IndentBlock | html/element.go:23-30 | `indentBlock` returns the specification function `Indented`. The lines are rewritten in place in an array |
| Indent.IndentedLines | html/element.go:23-30 | The output has exactly the lines of the input (minus one trailing newline), each behind `2*level` spaces |
| Indent.RepeatSpaces | html/element.go:24 | The prefix for a level is `2*level` spaces |
| Indent.LinesJoin | html/element.go:25 | Joining the lines back gives the input, minus exactly one trailing `\n` when it has one |
| Indent.IndentEmpty | html/element.go:23-30 | An empty block indents to a single line holding only the two-space prefix |
| Indent.IndentedNonEmpty | html/element.go:23-30 | An indented block is never empty at level 1 or more |
| Markup.AttrString | html/element.go:138-147 | The attribute loop, over any walk order of the map, gives the sorted tokens of the non-empty entries joined by spaces |
| Markup.TokensForPermutation | html/element.go:140-145 | The tokens collected depend on which keys are walked, not on the order of the walk |
| Markup.AttrTokensSpec | html/element.go:139-146 | The tokens are sorted. Each non-empty entry yields one `k="v"` token, every token comes from one, and empty values are skipped. Values are not escaped, so two entries can yield the same text; each text then occurs once per entry yielding it |
| Markup.TokensForMultiplicity | html/element.go:140-145 | Over a walk with no repeated key, a token text occurs once per non-empty entry yielding it, even when two entries yield the same text |
| Markup.DataDashSortsFirst | html/element.go:146 | Tokens are sorted as whole strings, not by key: `data-x="…"` sorts before `data="…"` although `data` < `data-x` |
| Markup.MarkupSelfClosingIff | html/element.go:149-154 | The text is the self-closing form exactly when the children's text is empty |
| Render.TextRendersItself | html/element.go:18-20 | A `Text` node yields its string and changes nothing |
| Render.RenderNode | html/element.go:107-155 | The reference definition of one call of a node, against which `Elements.Element.Render` is proved. Its contract keeps the tag and the theme. Its other promises are proved in `SelfClosingIffNoChildren`, `RenderKidsPiece`, `IdKept`, `IdFilled`, `RerenderKeepsId` and `ThemeMergedOnlyWhenPresent` |
| Render.RenderKidsShape | html/element.go:130-135 | There is one non-empty piece per non-nil child, and nil children stay nil |
| Render.RenderKidsPrefix | html/element.go:131-135 | Rendering more children only appends to the pieces and the rendered children |
| Render.RenderKidsPiece | html/element.go:131-135 | The children render in the order given. Non-nil child `j`'s piece is its own text indented one level, rendered after the children before it |
| Render.PresentZero | html/element.go:132 | No child counts exactly when every child is nil |
| Render.SelfClosingIffNoChildren | html/element.go:129-154 | An element is self-closing exactly when all its children are nil. A `Text("")` child still gives the open and close form |
| Render.IdKept | html/element.go:122-127 | An id present after the theme step is kept as it is, and no fresh id is requested |
| Render.UserIdSurvivesTheme | html/element.go:116-120 | A user id survives the theme merge |
| Render.IdFilled | html/element.go:122-127 | A missing id is requested once, before the children's. It is set exactly when the request succeeds, to the value returned |
| Render.RerenderKeepsId | html/element.go:122-127 | A second call keeps the id the first call wrote into the captured map, and requests none |
| Render.AttrsAfterRender | html/element.go:111-127 | After a call, the captured map is the theme-merged map with its id filled in |
| Render.WithIdOnlyId | html/element.go:122-127 | The id step changes no attribute but `id` |
| Render.ThemeMergedOnlyWhenPresent | html/element.go:116-120 | Without a theme entry for the tag, every attribute but `id` is left alone. With one, every attribute but `id` is what `mergeAttrs` gives |
| Render.RerenderRemergesTheme | html/element.go:116-118 | The theme is merged again on every call, into the map already merged. Theme `px-4 px-2` with user `px-1` gives `px-1 px-2`, then `px-2 px-2` |
| Elements.Element.constructor | html/element.go:106 | `Element(c, tag, attrs, children...)` captures the tag, the theme of its context, the attribute map and the children, without rendering anything |
| Elements.IdSource.NewId | html/element.go:124 | Each request returns the next draw of the id source and counts one call |
| Elements.Element.Render | html/element.go:106-156 | A call of the closure returns `RenderNode`'s text. It leaves the element tree as `RenderNode` leaves it, and makes as many id requests |
| Elements.Element.ThemeAndId | html/element.go:115-127 | The captured map becomes the theme-merged map with a missing id requested and, on success, written |
| Elements.Element.RenderChildren | html/element.go:129-135 | The children loop yields the specified pieces, leaves each child as its render leaves it, and makes the specified number of requests |
| Elements.Element.ExpandChild | html/element.go:131-134 | One turn of the children loop: a nil child is skipped; otherwise the child is called, its text is indented, and no other child changes |
| Elements.Element.CallChild | html/element.go:133 | Calling one child renders it as `RenderNode` says and leaves its siblings unchanged |
| Attribute.Attributes | html/attribute.go:15-21 | The result has every key of every argument. For each key, the value comes from the last argument that holds it |
| Attribute.Single | html/attribute.go:28-126 | A value-taking helper gives a map with the one attribute, holding the value passed |
| Attribute.Flag | html/attribute.go:32-45 | A boolean helper gives a map with the one attribute, whose value is its own name |
| Attribute.FlagHelpers | html/attribute.go:32-98 | `AttrDisabled`, `AttrMultiple`, `AttrReadonly`, `AttrRequired`, `AttrAutoFocus`, `AttrHidden`, `AttrInert` and `AttrItemScope` each give `name="name"` |
| Attribute.AttrData | html/attribute.go:85 | The single key is `data-` followed by the name, and holds the value passed |
| Attribute.AttrStyle | html/attribute.go:113 | The single key `style` holds the inline serialisation of the style. It is empty exactly when the style is |
| Css.Inline | css/style.go:10-32 | `Inline` is the declarations `k:v;` in ascending key order, and is empty exactly for the empty style |
| Css.SortedStyleKeys | css/style.go:16-20 | Gathering the keys in any walk order and sorting them gives the ascending key list |
| Css.WriteDeclarations | css/style.go:22-31 | The output loop writes exactly `Serialize`: the declarations `k:v;` for the given keys, in that order |
| Css.InlineEmptyIff | css/style.go:11-13 | The text is empty exactly for the empty style |
| Css.SerializeLength | css/style.go:23-29 | The output is the declarations and nothing else: its length is the sum over the keys of the key length, the value length and 2 |
| Css.InlineLength | css/style.go:22-31 | The text is every declaration and nothing else: its length is the sum over the keys of the key length, the value length and 2 |
| Css.InlineEndsWithSemicolon | css/style.go:23-29 | A non-empty style's text ends in `;` |
| Css.InlineKeyOrder | css/style.go:16-20 | Every key is written once, and the keys ascend strictly |
| Css.InlineIgnoresWalkOrder | css/style.go:16-20 | Whatever order the map is walked in, the text is the same |

## Left out

- The per-tag wrapper functions (`Div`, `Span`, …, html/element.go after line 156) are one-line calls of `Element` with a fixed tag. They add nothing beyond `Element` itself.
- `ThemeFromContext` and the `context.Context` plumbing are not modelled: the model takes each element's theme as a value fixed when the element is built. In Go the closure captures only the context. Each call looks the theme up again (line 109) and reads the map behind the `*Theme` pointer (line 117). The theme tables in html/theme.go and theme/theme.go are not part of this model.
- Changes to the theme map, or to a tag's default `Attrs`, made between building a node and calling it, or between two calls, are not modelled. Go sees such changes at the next call; the model's theme cannot change.
- Concurrency is not modelled: the model is sequential. A call writes back into its captured map (lines 118 and 125). So in Go, two goroutines calling the same node race on that map. Two nodes sharing one non-empty caller map race too, when no theme merge happens.
- `uuid.NewV7` is an oracle: `IdSource` yields the `k`-th draw, either a string or a failure. The uuid format is not modelled.
- Attribute.Single: html/attribute.go has 87 `Attr*` helpers, all one-entry maps of this shape, and only some are written out.
  - 55 take one `value string`; of these, `AttrClass`, `AttrID` and `AttrHref` are written out.
  - `AttrData` takes a name and a value; `AttrStyle` takes a `css.Style`. Both are written out.
  - 30 take no argument. The 8 boolean ones are written out through `Flag`; the 22 `AttrType*` ones give `type` a constant value and are not.
- Aliasing of the caller's map is not modelled. When the caller passes a non-empty map and no theme merge happens, Go writes the generated id (line 125) into that very map, so the caller can see it. An empty map is first replaced by a fresh one (lines 111-113), and a theme merge builds a fresh map (line 118). The model keeps the map inside the element.
- Shared children: the same element node passed twice, or to two parents, is not modelled. Children must be distinct, disjoint trees, because a shared closure would render twice with a shared map.
- The nil map at lines 111-113: an empty or nil user map is replaced by a fresh empty map. A Dafny map is never nil, so this step has nothing to do.
- Indent.IndentBlock: the level is a `nat`, because `strings.Repeat` panics on a negative count. The only caller passes 1.
- Strings are sequences of characters, each standing for one decoded rune, whereas Go stores UTF-8 bytes. Byte order and code-point order agree, so sorting is unaffected. Invalid UTF-8 is not modelled.
- Nothing is HTML-escaped in the source, and the model does not escape either.
- The class-merging examples are stated as general lemmas over any words of the right groups (for example `MergeReplacesFirst`), not over the literal strings.

## Calling a node more than once

The closure writes its results back into the attribute map it captured (html/element.go:118 and 125), so repeated calls are not independent. The lemmas prove:

- A second call reuses the id the first call generated, and requests no new one (`Render.RerenderKeepsId`).
- A second call merges the theme again into the already-merged map, so the class can change between calls (`Render.RerenderRemergesTheme`). For example, `px-1 px-2` becomes `px-2 px-2`.
- Each element uses the theme of the context it captured when it was built (line 109). No theme is passed from parent to child: `Node` carries a theme per element, and `RenderNode` reads only that one.
