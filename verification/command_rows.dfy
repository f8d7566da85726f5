/**
  The rows and card headers `Home` renders from the static section table.
  A command row's options default to `{}`; a text row shows only its
  command, a row with a tooltip shows the tooltip beside the command, and
  any other row shows command and description side by side.
*/
module CommandRows {
  import opened Js
  import opened Tooltips

  /** `{ tooltip?, commandColorClass?, commandSizeClass?,
        descriptionClassNames?, isText? }`. */
  datatype CommandOptions = CommandOptions(
    tooltip: Option<seq<TooltipItem>>,
    commandColorClass: Option<string>,
    commandSizeClass: Option<string>,
    descriptionClassNames: Option<string>,
    isText: Option<bool>)

  /** `[command, description, options?]`; the command and description are
      page content, kept as text. */
  datatype Command = Command(command: string, description: string, options: Option<CommandOptions>)

  const EmptyOptions: CommandOptions := CommandOptions(None, None, None, None, None)
  const DefaultColorClass: string := "text-gray-700 dark:text-gray-300"
  const DefaultSizeClass: string := "text-xs"

  /** The three shapes a command row takes. */
  datatype Row =
    | TextRow(command: string, sizeClass: string, colorClass: string)
    | TooltipRow(command: string, colorClass: string, tooltip: seq<Paragraph>,
                 description: string, descriptionClassNames: string)
    | PlainRow(command: string, colorClass: string,
               description: string, descriptionClassNames: string)

  /** `options = {}` when the third element is missing. */
  function OptionsOf(cmd: Command): CommandOptions {
    cmd.options.GetOr(EmptyOptions)
  }

  /** The colour class a row's command gets. */
  function ColorClass(row: Row): string {
    match row
    case TextRow(_, _, c) => c
    case TooltipRow(_, c, _, _, _) => c
    case PlainRow(_, c, _, _) => c
  }

  /** One row of a section card.  `isText` is checked before `tooltip`, so
      a text row never shows a tooltip; an empty tooltip list is still
      truthy and still yields a tooltip row. */
  function RenderCommand(cmd: Command): (row: Row)
    ensures var o := OptionsOf(cmd);
      && (row.TextRow? <==> o.isText == Some(true))
      && (row.TooltipRow? <==> o.isText != Some(true) && o.tooltip.Some?)
      && (row.PlainRow? <==> o.isText != Some(true) && o.tooltip.None?)
    ensures row.command == cmd.command
    ensures !row.TextRow? ==> row.description == cmd.description
    ensures ColorClass(row) != ""
    ensures var c := OptionsOf(cmd).commandColorClass;
      ColorClass(row) == if c.Some? && c.value != "" then c.value else DefaultColorClass
    ensures var z := OptionsOf(cmd).commandSizeClass;
      row.TextRow? ==> row.sizeClass == if z.Some? && z.value != "" then z.value else DefaultSizeClass
    ensures !row.TextRow? ==> row.descriptionClassNames == OptionsOf(cmd).descriptionClassNames.GetOr("")
    ensures row.TooltipRow? ==> row.tooltip == RenderTooltipContent(OptionsOf(cmd).tooltip.value)
  {
    var o := OptionsOf(cmd);
    var isText := OrFalse(o.isText);
    var colorClass := OrString(o.commandColorClass, DefaultColorClass);
    var sizeClass := OrString(o.commandSizeClass, DefaultSizeClass);
    if isText then
      TextRow(cmd.command, sizeClass, colorClass)
    else if o.tooltip.Some? then
      TooltipRow(cmd.command, colorClass, RenderTooltipContent(o.tooltip.value),
                 cmd.description, o.descriptionClassNames.GetOr(""))
    else
      PlainRow(cmd.command, colorClass, cmd.description, o.descriptionClassNames.GetOr(""))
  }

  /** A command with no options renders exactly as one with `{}`: a plain
      row in the default colour. */
  lemma MissingOptionsAreEmpty(command: string, description: string)
    ensures RenderCommand(Command(command, description, None))
         == RenderCommand(Command(command, description, Some(EmptyOptions)))
         == PlainRow(command, DefaultColorClass, description, "")
  {
  }

  /** `isText` wins over `tooltip`: a text row ignores the tooltip and the
      description entirely. */
  lemma TextIgnoresTooltip(cmd: Command, tooltip: Option<seq<TooltipItem>>, description: string)
    requires cmd.options.Some? && cmd.options.value.isText == Some(true)
    ensures RenderCommand(cmd)
         == RenderCommand(Command(cmd.command, description, Some(cmd.options.value.(tooltip := tooltip))))
  {
  }

  /** The options spelled out in full, with the defaults filled in. */
  function Normalize(o: CommandOptions): (full: CommandOptions)
    ensures full.isText.Some? && full.commandColorClass.Some? && full.commandSizeClass.Some?
    ensures full.descriptionClassNames.Some?
    ensures full.commandColorClass.value != "" && full.commandSizeClass.value != ""
    ensures full.tooltip == o.tooltip
  {
    CommandOptions(
      o.tooltip,
      Some(OrString(o.commandColorClass, DefaultColorClass)),
      Some(OrString(o.commandSizeClass, DefaultSizeClass)),
      Some(o.descriptionClassNames.GetOr("")),
      Some(OrFalse(o.isText)))
  }

  /** Filling in the defaults changes nothing in the rendering, and doing
      it twice is the same as once. */
  lemma NormalizeKeepsRendering(cmd: Command)
    ensures RenderCommand(cmd.(options := Some(Normalize(OptionsOf(cmd))))) == RenderCommand(cmd)
    ensures Normalize(Normalize(OptionsOf(cmd))) == Normalize(OptionsOf(cmd))
  {
  }

  /** `{ title, colorClass, tooltip?, commands }`. */
  datatype Section = Section(
    title: string,
    colorClass: string,
    tooltip: Option<seq<TooltipItem>>,
    commands: seq<Command>)

  /** A card: its heading, with the section's tooltip when it has one, and
      one row per command. */
  datatype Card = Card(
    title: string,
    colorClass: string,
    tooltip: Option<seq<Paragraph>>,
    rows: seq<Row>)

  /** One section card; a heading gets a tooltip whenever the section has
      a tooltip list, even an empty one. */
  function RenderSection(section: Section): (card: Card)
    ensures card.title == section.title && card.colorClass == section.colorClass
    ensures card.tooltip.Some? <==> section.tooltip.Some?
    ensures card.tooltip.Some? ==> card.tooltip.value == RenderTooltipContent(section.tooltip.value)
    ensures |card.rows| == |section.commands|
    ensures forall i :: 0 <= i < |section.commands| ==> card.rows[i] == RenderCommand(section.commands[i])
  {
    var tooltip := if section.tooltip.Some? then Some(RenderTooltipContent(section.tooltip.value)) else None;
    Card(section.title, section.colorClass, tooltip,
         seq(|section.commands|, i requires 0 <= i < |section.commands| => RenderCommand(section.commands[i])))
  }

  /** The page: one card per section, in order. */
  function RenderPage(sections: seq<Section>): (cards: seq<Card>)
    ensures |cards| == |sections|
    ensures forall i :: 0 <= i < |sections| ==> cards[i] == RenderSection(sections[i])
  {
    seq(|sections|, i requires 0 <= i < |sections| => RenderSection(sections[i]))
  }

  /** What the page shows for command `j` of section `i`: one row per
      command, never an empty colour class, the command itself, a tooltip
      row only for a non-text command with a tooltip list, and that
      tooltip's paragraphs one per item with the margin on all but the
      last. */
  lemma PageRows(sections: seq<Section>, i: int, j: int)
    requires 0 <= i < |sections| && 0 <= j < |sections[i].commands|
    ensures |RenderPage(sections)| == |sections|
    ensures |RenderPage(sections)[i].rows| == |sections[i].commands|
    ensures var row := RenderPage(sections)[i].rows[j];
      var o := OptionsOf(sections[i].commands[j]);
      && ColorClass(row) != ""
      && row.command == sections[i].commands[j].command
      && (row.TextRow? <==> o.isText == Some(true))
      && (row.TooltipRow? ==>
            && o.isText != Some(true) && o.tooltip.Some?
            && |row.tooltip| == |o.tooltip.value|
            && forall k :: 0 <= k < |row.tooltip| ==> (row.tooltip[k].spaced <==> k != |row.tooltip| - 1))
  {
  }

  /** A card's heading keeps the section's title and colour, and carries a
      tooltip exactly when the section has a tooltip list, with one
      paragraph per item and the margin on all but the last. */
  lemma PageHeadings(sections: seq<Section>, i: int)
    requires 0 <= i < |sections|
    ensures var card := RenderPage(sections)[i];
      var t := sections[i].tooltip;
      && card.title == sections[i].title
      && card.colorClass == sections[i].colorClass
      && (card.tooltip.Some? <==> t.Some?)
      && (card.tooltip.Some? ==>
            && |card.tooltip.value| == |t.value|
            && forall k :: 0 <= k < |t.value| ==>
                 && (card.tooltip.value[k].spaced <==> k != |t.value| - 1)
                 && card.tooltip.value[k].content == KbdText.Parse(t.value[k].text))
  {
  }
}
