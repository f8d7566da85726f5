# Vim cheat sheet: inline key scanner and row rendering, in Dafny

The cheat-sheet page renders a fixed table of editor commands as section cards.
Tooltip texts in that table mark keystrokes inline as `<kbd>…</kbd>`. The page's
one piece of real logic is `parseTextWithKbd`. It splits such a string with
`text.split(/(<kbd>.*?<\/kbd>)/g)` and renders every part that starts with
`<kbd>` and ends with `</kbd>` as a key token showing the text between the tags.
Around it sit three small normalisation rules:

- `renderTooltipContent` defaults each tooltip item's options and spaces the paragraphs.
- The command-row code in `Home` defaults the options and chooses one of three row shapes.
- The section header adds a tooltip when the section has one.

The model is functional: strings are `seq<char>` (a Dafny `char` is one Unicode scalar value),
and missing object properties are `Js.Option`.

- `Js` (js.dfy): JavaScript truthiness defaults (`x || d`, `x !== false`),
  `startsWith`/`endsWith`/`slice`, joining, and `clsx`.
- `KbdScanner` (kbd_scanner.dfy): the split, as ECMAScript's `RegExp.prototype[@@split]` runs it.
  - `FindClose` is the lazy `.*?<\/kbd>` tail.
  - `MatchAt` is one sticky attempt at an index.
  - `Scan` is the split loop.
  - `Split` adds the empty-string special case.
  - Its partner is the declarative description `LeftmostFrom`: an odd number of parts,
    alternating text and matches, where each match is the one at the first index where the
    pattern succeeds (`IsMatch`, `NoMatchIn`). `Split` is proved to produce the one and only such split.
- `KbdText` (kbd_text.dfy): `Classify` (the `map` callback), `Parse` (`parseTextWithKbd`),
  `Unparse` as the inverse, and two worked examples.
- `Tooltips` (tooltips.dfy): `renderTooltipContent` and its option defaults.
- `CommandRows` (command_rows.dfy): the command-row dispatch, the section card and the page.

## Model

| member | source | states |
|---|---|---|
| KbdScanner.FindClose | pages/index.tsx:543 | The lazy `.*?<\/kbd>` tail ends at the first closing tag at or after the start, with no line terminator before it. When there is none, every later closing tag is preceded by a line terminator. |
| KbdScanner.MatchAt | pages/index.tsx:543 | An attempt at an index succeeds exactly when the declarative `IsMatch` holds. The end it returns is that match's end. |
| KbdScanner.FirstMatchUnique | pages/index.tsx:543 | The first index from `p` where the pattern succeeds is unique. So is the end of the match there: the lazy quantifier stops at the first closing tag. |
| KbdScanner.ScanLeftmost | pages/index.tsx:543 | The split loop keeps its invariant: with no match between `p` and `q`, it yields the leftmost split of the rest of the string. |
| KbdScanner.SplitLeftmost | pages/index.tsx:543 | The split of every string, including the empty one, is a leftmost split. |
| KbdScanner.LeftmostUnique | pages/index.tsx:543 | There is at most one leftmost split of a string. |
| KbdScanner.SplitIsLeftmost | pages/index.tsx:543 | A sequence of parts equals the split if and only if it satisfies the declarative leftmost-split description. |
| KbdScanner.LeftmostJoins | pages/index.tsx:543 | A leftmost split has an odd number of parts, and they join back to the text. |
| KbdScanner.LeftmostPart | pages/index.tsx:543 | In a leftmost split, odd-indexed parts are matched spans and even-indexed parts contain no match. |
| KbdScanner.SplitRoundTrip | pages/index.tsx:543 | Joining the parts of the split gives back the input. |
| KbdScanner.SplitShape | pages/index.tsx:543 | The split has `2k + 1` parts, at least one, even for the empty string. A part is a matched span if and only if its index is odd. Even-indexed parts contain no match anywhere. |
| KbdScanner.SpanInner | pages/index.tsx:543 | A matched span has both tags and is at least 11 characters long. Its inner text holds no `</kbd>` and no line terminator. |
| KbdScanner.MatchInSlice | pages/index.tsx:543 | The pattern matches in a slice exactly where it matches at the shifted indices of the whole string, because it looks at nothing beyond its own span. |
| KbdText.TagsDoNotOverlap | pages/index.tsx:545-546 | A part that starts with `<kbd>` and ends with `</kbd>` is at least 11 characters long, so `slice(5, -6)` is well defined on it. |
| KbdText.Classify | pages/index.tsx:545-560 | A part becomes a key token exactly when it starts with `<kbd>` and ends with `</kbd>`. The token's content is the text strictly between the tags. Re-wrapping a token, or taking a plain part as is, gives back the part. |
| KbdText.Parse | pages/index.tsx:542-562 | One segment per split part, in order. Each segment reproduces its part. |
| KbdText.UnparseIsConcat | pages/index.tsx:544 | Unparsing segments that reproduce their parts gives the parts joined. |
| KbdText.ParseRoundTrip | pages/index.tsx:543-546 | Joining the segments, with each key token re-wrapped in `<kbd>`/`</kbd>`, reproduces the input exactly. |
| KbdText.MatchedSpansAreKeys | pages/index.tsx:543-546 | Every odd-indexed segment is a key token. Its re-wrapped text is the matched span, and its content holds no `</kbd>` and no line terminator. |
| KbdText.GapsArePlainUnlessTagged | pages/index.tsx:545-560 | An even-indexed segment is plain text unless its part happens to start with `<kbd>` and end with `</kbd>`. |
| KbdText.ScanSkip | pages/index.tsx:543 | An index whose first two characters cannot begin `<kbd>` is skipped by the split loop. |
| KbdText.ScanSkipNoLt | pages/index.tsx:543 | A stretch without `<` is skipped by the split loop. |
| KbdText.LazyExampleMatch | pages/index.tsx:543 | On `<kbd>a</kbd>b</kbd>` the attempt at index 0 ends at the first closing tag (index 12). |
| KbdText.LazyExampleTail | pages/index.tsx:543 | After that match, the rest `b</kbd>` is one unmatched part. |
| KbdText.FirstCloseEndsMatch | pages/index.tsx:543-560 | `<kbd>a</kbd>b</kbd>` splits into `""`, `<kbd>a</kbd>` and `b</kbd>`. It renders as plain, key `a`, plain. |
| KbdText.LineBreakExampleNoMatch | pages/index.tsx:543 | On `<kbd>a\nb</kbd>` the attempt at index 0 fails at the line break. |
| KbdText.LineBreakExampleSplit | pages/index.tsx:543 | `<kbd>a\nb</kbd>` does not split. |
| KbdText.LineBreakStillRendersKey | pages/index.tsx:543-546 | The single unmatched part `<kbd>a\nb</kbd>` still renders as one key token, with content `a\nb`. |
| Js.Clsx | pages/index.tsx:576-580 | The class list holds exactly the non-empty arguments. |
| Tooltips.RenderTooltipContent | pages/index.tsx:564-587 | One paragraph per item, in order, showing the parsed item text. It is bulleted unless `bulleted` is exactly `false`, and bold only when `bolded` is true. Its colour classes are the given ones or `''`. It carries the bottom margin exactly when it is not the last. |
| Tooltips.Normalize | pages/index.tsx:568-571 | Filling in the defaults leaves no option missing. |
| Tooltips.NormalizeKeepsRendering | pages/index.tsx:568-571 | Rendering with the defaults spelled out is the same as rendering without them. Filling in the defaults is idempotent. |
| Tooltips.BareItemDefaults | pages/index.tsx:566-584 | A bare string renders bulleted, with the `• ` prefix, not bold, with no colour, exactly like the tuple with those options written out. |
| Tooltips.ParagraphClasses | pages/index.tsx:576-580 | A paragraph's class list holds the margin class on every paragraph but the last and the bold class when bold. It holds the colour classes when there are any, and nothing else. |
| Tooltips.RenderAppend | pages/index.tsx:577 | Appending items changes an earlier paragraph only in its margin. The previously last paragraph gains the margin. |
| CommandRows.RenderCommand | pages/index.tsx:666-749 | Missing options count as `{}`. An `isText` row shows only the command, even when a tooltip is set. A tooltip row appears exactly when the row is not text and a tooltip list is present, even an empty one. Every other row is plain. The colour and size classes default to `text-gray-700 dark:text-gray-300` and `text-xs` when missing or empty, so they are never empty. |
| CommandRows.MissingOptionsAreEmpty | pages/index.tsx:666 | A command without options renders like one with `{}`: a plain row in the default colour. |
| CommandRows.TextIgnoresTooltip | pages/index.tsx:674-685 | Changing the tooltip or the description of an `isText` command does not change its row. |
| CommandRows.Normalize | pages/index.tsx:666-671 | Filling in the defaults leaves no option missing, gives non-empty colour and size classes, and keeps the tooltip. |
| CommandRows.NormalizeKeepsRendering | pages/index.tsx:666-685 | Rendering with the defaults spelled out is the same as rendering without them. Filling in the defaults is idempotent. |
| CommandRows.PageRows | pages/index.tsx:663-749 | On the page, section `i` shows one row per command. Row `j` shows command `j` in a non-empty colour class. It is a text row exactly when `isText` is true. A tooltip row belongs to a non-text command with a tooltip list, and has one paragraph per tooltip item with the margin on all but the last. |
| CommandRows.PageHeadings | pages/index.tsx:620-661 | Card `i` keeps section `i`'s title and colour. Its heading has a tooltip exactly when the section has a tooltip list, even an empty one. That tooltip has one paragraph per item, showing the item's parsed text, with the margin on all but the last. |

## Left out

- The JSX and DOM output, the `key` props, the inline `boxShadow` style, the info-icon SVG and the exact CSS strings other than the defaults the code chooses. The model records which flags and classes are selected, not the markup.
- `clsx` is a third-party library. `Js.Clsx` models its result for string arguments, with a falsy argument written as `""`.
- The `title`, `command` and `description` fields are React nodes in the page. They are only passed through, so they are modelled as text.
- The static `sections` and `titleColorClassNames` tables (pages/index.tsx:31-540). They are content, not behaviour.
- The header fade (pages/index.tsx:590-614). It is a `setTimeout` inside a React effect.
- components/Tooltip.tsx: mouse-driven visibility state and positioning by the third-party popper library.
- components/LinkBadge.tsx: a constant colour-to-class table. pages/_app.tsx: font and global style setup.
- The split's `limit` argument: the page passes none, so the limit is 2^32 - 1 parts. `Split` produces any number of parts.
- UTF-16: a JavaScript string is a sequence of UTF-16 code units, while a Dafny `char` is a Unicode scalar value. A character outside the Basic Multilingual Plane is one `char` here but two code units in the page, and lone surrogates cannot be written here at all. Indices in the model count characters, not code units. The split's parts are the same for well-formed text, because the pattern looks only for the ASCII tags and for line terminators, which are all in the Basic Multilingual Plane.
