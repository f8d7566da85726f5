/**
  `renderTooltipContent`: each tooltip item becomes one paragraph.  An item
  is a bare string or a string with options; missing options fall back to
  a bulleted, non-bold paragraph with no colour classes, and every paragraph
  but the last is spaced from the next.
*/
module Tooltips {
  import opened Js
  import opened KbdText

  /** `{ bulleted?, bolded?, colorClassNames? }`. */
  datatype TooltipOptions = TooltipOptions(
    bulleted: Option<bool>,
    bolded: Option<bool>,
    colorClassNames: Option<string>)

  /** `string | [string, TooltipOptions]`. */
  datatype TooltipItem =
    | Bare(text: string)
    | Styled(text: string, options: TooltipOptions)

  /** What a bare string item stands for: `{}`. */
  const NoOptions: TooltipOptions := TooltipOptions(None, None, None)

  /** A rendered `<p>`: the flags and classes it was given and the segments
      of its text. */
  datatype Paragraph = Paragraph(
    bulleted: bool,
    bold: bool,
    colorClassNames: string,
    spaced: bool,
    content: seq<Segment>)

  const BulletPrefix: string := "\U{2022} "
  const SpacingClass: string := "mb-2"
  const BoldClass: string := "font-semibold"

  /** The text written before a paragraph's segments. */
  function Prefix(para: Paragraph): string {
    if para.bulleted then BulletPrefix else ""
  }

  /** The paragraph's `className`, as `clsx` assembles it. */
  function ClassNames(para: Paragraph): seq<string> {
    Clsx([if para.spaced then SpacingClass else "",
          if para.bold then BoldClass else "",
          para.colorClassNames])
  }

  function OptionsOf(item: TooltipItem): TooltipOptions {
    match item
    case Bare(_) => NoOptions
    case Styled(_, o) => o
  }

  /** The paragraph for one item; `spaced` says whether another item
      follows it. */
  function RenderItem(item: TooltipItem, spaced: bool): Paragraph {
    var options := OptionsOf(item);
    Paragraph(
      NotFalse(options.bulleted),
      OrFalse(options.bolded),
      OrString(options.colorClassNames, ""),
      spaced,
      Parse(item.text))
  }

  /** `renderTooltipContent(items)`: one paragraph per item, in order, each
      showing its item's text; options default to bulleted, not bold and no
      colour; every paragraph but the last carries the bottom margin. */
  function RenderTooltipContent(items: seq<TooltipItem>): (paras: seq<Paragraph>)
    ensures |paras| == |items|
    ensures forall i :: 0 <= i < |items| ==> paras[i].content == Parse(items[i].text)
    ensures forall i :: 0 <= i < |items| ==> (paras[i].spaced <==> i != |items| - 1)
    ensures forall i :: 0 <= i < |items| ==>
      (paras[i].bulleted <==> items[i].Bare? || items[i].options.bulleted != Some(false))
    ensures forall i :: 0 <= i < |items| ==>
      (paras[i].bold <==> items[i].Styled? && items[i].options.bolded == Some(true))
    ensures forall i :: 0 <= i < |items| ==>
      paras[i].colorClassNames == (if items[i].Styled? && items[i].options.colorClassNames.Some?
                                   then items[i].options.colorClassNames.value else "")
  {
    seq(|items|, i requires 0 <= i < |items| => RenderItem(items[i], i < |items| - 1))
  }

  /** The options spelled out in full, with the defaults filled in. */
  function Normalize(options: TooltipOptions): (full: TooltipOptions)
    ensures full.bulleted.Some? && full.bolded.Some? && full.colorClassNames.Some?
  {
    TooltipOptions(
      Some(NotFalse(options.bulleted)),
      Some(OrFalse(options.bolded)),
      Some(OrString(options.colorClassNames, "")))
  }

  /** Filling in the defaults changes nothing in the rendering, and doing
      it twice is the same as once. */
  lemma NormalizeKeepsRendering(text: string, options: TooltipOptions, spaced: bool)
    ensures RenderItem(Styled(text, Normalize(options)), spaced) == RenderItem(Styled(text, options), spaced)
    ensures Normalize(Normalize(options)) == Normalize(options)
  {
  }

  /** A bare string renders as bulleted, not bold and with no colour: the
      same as the string with the defaults written out. */
  lemma BareItemDefaults(text: string, spaced: bool)
    ensures var para := RenderItem(Bare(text), spaced);
      para.bulleted && !para.bold && para.colorClassNames == ""
    ensures Prefix(RenderItem(Bare(text), spaced)) == "\U{2022} "
    ensures RenderItem(Bare(text), spaced)
         == RenderItem(Styled(text, TooltipOptions(Some(true), Some(false), Some(""))), spaced)
  {
  }

  /** The class list of a paragraph holds the margin class for every
      paragraph but the last, the bold class exactly when bold, and the
      colour classes when there are any. */
  lemma ParagraphClasses(items: seq<TooltipItem>, i: int)
    requires 0 <= i < |items|
    ensures var para := RenderTooltipContent(items)[i];
      && (i != |items| - 1 ==> SpacingClass in ClassNames(para))
      && (para.bold ==> BoldClass in ClassNames(para))
      && (para.colorClassNames != "" ==> para.colorClassNames in ClassNames(para))
      && (forall c :: c in ClassNames(para) ==>
            c == SpacingClass || c == BoldClass || c == para.colorClassNames)
  {
  }

  /** Appending items only changes the earlier paragraphs' spacing: the
      previously last paragraph gains the margin. */
  lemma RenderAppend(a: seq<TooltipItem>, b: seq<TooltipItem>, i: int)
    requires 0 <= i < |a|
    ensures RenderTooltipContent(a + b)[i]
         == RenderTooltipContent(a)[i].(spaced := i < |a| - 1 || |b| > 0)
  {
  }
}
