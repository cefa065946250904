# Lister action buttons, modelled in Dafny

ProcessWire's Lister lists pages. In its results, each action button is a
link with the classes `lister-action-button pw-modal`. A click on one of
these links opens the link's `href` in a modal window, not as a page
navigation. The size of the modal comes from a `pw-modal-<size>` class on
the link. When the modal closes, the listing is refreshed if the button
nested in the link carries the data value `refresh` equal to the number 1.

This project models the pure logic of that click handler and proves its
properties:

- `class_list.dfy` (module `ClassList`) models the class-attribute
  tokenisation `split(/\s+/)`, using the ECMAScript whitespace set. Runs of
  whitespace separate tokens. Leading or trailing whitespace yields an empty
  token. The empty string splits to one empty token.
- `modal_size.dfy` (module `ModalSize`) models the walk over the configured
  modal sizes in iteration order. It picks the first size whose class
  `pw-modal-<size>` is among the tokens, as `indexOf` finds them, and falls
  back to "medium". It holds both a recursive definition and the loop with
  an early exit that the handler runs.
- `js_values.dfy` (module `JsValues`) models the JavaScript values the
  handler reads, attribute reads, and strict equality `===`.
- `refresh.dfy` (module `Refresh`) models the close-time decision
  `$('button', $a).data('refresh') === 1`.
- `action_buttons.dfy` (module `ActionButtons`) models one click and the
  close of its modal as a trace of effects:
  - prevent default
  - stop propagation
  - open the modal
  - listen for the modal's close
  - click the refresh tab

The modal service `pwModalWindow` is a function parameter that returns a
handle. The configured sizes are a parameter: the keys of
`ProcessWire.config.modals`, in iteration order. The nested buttons seen
when the modal closes are another parameter.

## Model

| member | source | states |
|---|---|---|
| ClassList.IsWhitespace | FieldtypeListerActionButtons.js:18 | The `\s` class: exactly the ECMAScript WhiteSpace and LineTerminator code points (tab, vertical tab, form feed, space, no-break space, the byte order mark, the Unicode space separators, line feed, carriage return, and the line and paragraph separators). |
| ClassList.WhitespaceEdges | FieldtypeListerActionButtons.js:18 | Space, tab, the line terminators, no-break space and the byte order mark are separators. The zero-width space U+200B and U+180E are not, and neither are the characters of class names. |
| ClassList.Split | FieldtypeListerActionButtons.js:18 | `split(/\s+/)` returns at least one token. No token contains whitespace, and only the first and last tokens can be empty. The first token is empty exactly when the attribute is empty or starts with whitespace. The empty attribute gives one empty token. |
| ClassList.FlattenSplit | FieldtypeListerActionButtons.js:18 | Concatenating the tokens gives back the attribute with its whitespace removed, so splitting loses no non-whitespace character and keeps the others in order. The grouping into tokens is fixed by `SplitWord` and `SplitGap`. |
| ClassList.LastTokenEmpty | FieldtypeListerActionButtons.js:18 | The last token is empty exactly when the attribute is empty or ends with whitespace. |
| ClassList.SplitWord | FieldtypeListerActionButtons.js:18 | A string without whitespace, the empty string included, is the single token it consists of. |
| ClassList.SplitGap | FieldtypeListerActionButtons.js:18 | Say a non-empty run of whitespace is all that separates `a` from `b`: `a` does not end in whitespace and `b` does not start with it. Then the tokens of `a`, the run and `b` are the tokens of `a` followed by the tokens of `b`. Splitting one run at a time, this and `SplitWord` determine the token sequence of every attribute, order and grouping included. |
| ClassList.SplitJoin | FieldtypeListerActionButtons.js:18 | Splitting non-empty, whitespace-free class names joined by single spaces returns exactly those names, in order. |
| ClassList.SplitMembers | FieldtypeListerActionButtons.js:18 | A non-empty, whitespace-free name is among the tokens exactly when it occurs in the attribute as a whole word, with whitespace or an end of the text on both sides. |
| ModalSize.IndexOf | FieldtypeListerActionButtons.js:25 | `indexOf` returns -1 exactly when the name is absent. Otherwise it returns a position holding the name, with no earlier occurrence. |
| ModalSize.Requested | FieldtypeListerActionButtons.js:25 | A configured size is requested when the class `pw-modal-<size>` is among the class tokens, as found with `indexOf(...) !== -1`. The other rows use "requested" in this sense. |
| ModalSize.ResolveSize | FieldtypeListerActionButtons.js:19-29 | The modal size is "medium" or a configured size. It is "medium" when no configured size's class is present. Otherwise it is the configured size at the first position whose class is present. |
| ModalSize.ResolveModalSize | FieldtypeListerActionButtons.js:19-29 | The handler's loop, which starts at "medium" and stops at the first configured size whose class is present, computes the same size as the recursive definition. |
| ModalSize.ResolveSizeIsFirstRequested | FieldtypeListerActionButtons.js:24-29 | If the configured size at index j is requested and none before it is, the resolved size is the one at j. |
| ModalSize.SingleRequestWins | FieldtypeListerActionButtons.js:24-29 | If exactly one configured size is requested, that size is chosen. |
| ModalSize.TokenOrderIrrelevant | FieldtypeListerActionButtons.js:25 | Two token lists with the same members resolve to the same size, whatever the token order or repetitions. |
| ModalSize.RequestedIffWord | FieldtypeListerActionButtons.js:18-25 | A size is requested by the attribute exactly when the size has no whitespace and `pw-modal-<size>` occurs in the attribute as a whole word. |
| ModalSize.ResolveOnAttribute | FieldtypeListerActionButtons.js:18-29 | Stated on the attribute text, the resolved size is the first configured size whose class occurs there as a word. |
| ModalSize.ConfiguredOrderWins | FieldtypeListerActionButtons.js:24-29 | Configured order decides, not class order. With small, medium and large configured, the tokens `pw-modal-large pw-modal-small` give "small". |
| ModalSize.PrefixIsNotAMatch | FieldtypeListerActionButtons.js:25 | `indexOf` matches whole tokens only, so `pw-modal-larger` does not request "large". |
| JsValues.StrictEquals | FieldtypeListerActionButtons.js:37 | `===`: true only for two values of the same kind, equal within that kind (the same object for objects). It never converts between kinds. |
| JsValues.StrictEqualsIsEquality | FieldtypeListerActionButtons.js:37 | `===` holds exactly for two values of the same kind with the same contents, and for objects the same object; there is no conversion between kinds. |
| Refresh.DataOf | FieldtypeListerActionButtons.js:36 | `$('button', $a).data(key)` is the value stored under `key` on the first nested button. Without a nested button, or without a value under `key`, it is `undefined`. |
| Refresh.ShouldRefresh | FieldtypeListerActionButtons.js:36-37 | Refresh happens exactly when there is a nested button and its first one holds `refresh` with the number 1. |
| Refresh.RefreshIffNumberOne | FieldtypeListerActionButtons.js:37 | On one button, only the number 1 triggers a refresh. |
| Refresh.LookalikesDoNotRefresh | FieldtypeListerActionButtons.js:37 | The string "1", the boolean true, 0 and 1.5 do not trigger a refresh, because the comparison is `===`. |
| Refresh.MissingValueDoesNotRefresh | FieldtypeListerActionButtons.js:36-37 | No refresh happens when there is no nested button, when the value is absent, or when the value is `undefined` or `null`. |
| Refresh.OnlyFirstButtonCounts | FieldtypeListerActionButtons.js:36 | `.data` reads the first nested button only, so later buttons do not matter. |
| ActionButtons.OnClick | FieldtypeListerActionButtons.js:17-35 | A click prevents the default, then stops propagation. It then opens one modal on the link's `href` at the size resolved from its class tokens. The close listener goes on the handle that call returned. The refresh tab is not clicked. |
| ActionButtons.OnDialogClose | FieldtypeListerActionButtons.js:35-39 | On close, the refresh tab is clicked at most once, and exactly when the first nested button's `refresh` value is the number 1. |
| ActionButtons.Session | FieldtypeListerActionButtons.js:17-40 | One handler run followed by one `dialogclose`: the click's trace, then the close's trace. The close reads the nested buttons as they are when the modal closes. |
| ActionButtons.SessionEffects | FieldtypeListerActionButtons.js:21-39 | Over a click and its close, effects follow the protocol order. Exactly one modal opens, on the `href`, at "medium" or a configured size. Its handle gets the close listener. The refresh click happens last and only when the value is 1. |
| ActionButtons.ClickOpensFirstConfiguredSize | FieldtypeListerActionButtons.js:17-32 | The link `lister-action-button pw-modal pw-modal-large pw-modal-small`, with small, medium and large configured, opens a small modal on its `href`. |
| ActionButtons.ClickWithoutSizeClassOpensMedium | FieldtypeListerActionButtons.js:17-32 | The link `lister-action-button pw-modal` opens a medium modal on its `href`, whatever sizes are configured, an empty size name or one containing whitespace included. The `href` may be present or absent; an absent one is passed to the modal service as `undefined`. |

## Left out

- Event binding, at lines 15 and 45-48, is not modelled: jQuery selection, `.on("click")` on the links present at each `loaded` event of `#ProcessListerResults`, and document-ready. Each `loaded` event binds the handler again to the links then present, with no delegation. A link present at two `loaded` events therefore gets two handlers. The model covers one handler run per click.
- `pwModalWindow`, at line 32, is a parameter that returns a handle. Its empty options object `{}` carries no information and is not represented. What the modal shows is outside this file.
- The refresh-tab click, at line 38, is an effect in the trace. The Lister reload it starts is not modelled.
- Timing is not modelled. The close callback runs later, and reads the nested buttons at that time, not at click time. That is why the buttons are a separate parameter of the close step.
- Iteration order of the keys of `ProcessWire.config.modals` follows the engine's rules for object keys. The model takes the order as given. An empty configuration is the empty sequence.
- An absent `ProcessWire.config.modals` (`undefined`) is not modelled, because what happens depends on the jQuery version. With jQuery 1.12 or 2.2 and later, `$.each` visits nothing and the modal opens at "medium". With jQuery 1.11 or earlier, `$.each` throws a TypeError after `preventDefault` and `stopPropagation`, and no modal opens. This file does not say which version it runs on.
- jQuery's conversion of `data-refresh` attribute text into values (a number, boolean, null or JSON) is not modelled. The model starts from the converted values.
- NaN, the infinities, negative zero, and strings as UTF-16 code units (surrogate pairs) are not modelled. Numbers are exact reals, and strings are sequences of Unicode characters.
- A link without a `class` attribute is not modelled: the selector at line 15 only binds links that carry both classes, so `$a.attr("class")` is always a string.
