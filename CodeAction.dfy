/** Code actions: turns the server's list of commands and actions into one
    `menu` command for the editor, each entry a title and the command that
    runs when the entry is selected. */
module CodeAction {

  import opened Wrappers
  import opened Text
  import opened Json

  /** A command the server can execute: its title, its identifier and its
      arguments. */
  datatype Command = Command(title: string, command: string, arguments: Option<seq<Json>>)

  /** A code action; `edit` stands for its workspace edit. */
  datatype LspCodeAction = LspCodeAction(
    title: string,
    kind: Option<string>,
    edit: Option<Json>,
    command: Option<Command>)

  datatype ActionOrCommand = CommandItem(cmd: Command) | ActionItem(action: LspCodeAction)

  /** The one message shown when the server offers nothing. */
  const NoActions: string := "lsp-show-error 'No actions available'"

  // ---------------------------------------------------------------------------
  // Normalisation
  // ---------------------------------------------------------------------------

  /** An action that carries a command is presented as that command; a
      command, and an action without one, stay as they are. */
  function Normalize(c: ActionOrCommand): (r: ActionOrCommand)
    ensures c.ActionItem? && c.action.command.Some? ==> r == CommandItem(c.action.command.value)
    ensures c.CommandItem? || c.action.command.None? ==> r == c
  {
    match c
    case CommandItem(_) => c
    case ActionItem(action) =>
      match action.command
      case Some(cmd) => CommandItem(cmd)
      case None => c
  }

  /** Normalising twice is normalising once, and what remains an action
      carries no command. */
  lemma NormalizeIdempotent(c: ActionOrCommand)
    ensures Normalize(Normalize(c)) == Normalize(c)
    ensures Normalize(c).ActionItem? ==> Normalize(c).action.command.None?
  {
  }

  // ---------------------------------------------------------------------------
  // Arguments, encoded twice
  // ---------------------------------------------------------------------------

  /** The JSON value of optional arguments: `null` when absent. */
  function ArgumentsJson(args: Option<seq<Json>>): Json
  {
    match args
    case None => Null
    case Some(xs) => Array(xs)
  }

  /** Reads optional arguments back from their JSON value. */
  function ArgumentsFromJson(v: Json): Option<Option<seq<Json>>>
  {
    match v
    case Null => Some(None)
    case Array(xs) => Some(Some(xs))
    case _ => None
  }

  /** The argument payload as placed in the menu: the arguments serialised,
      and that text serialised again as a JSON string literal. */
  function ArgumentsLiteral(args: Option<seq<Json>>): string
  {
    Quote(Serialize(ArgumentsJson(args)))
  }

  /** Decoding the payload once as a string literal gives exactly the first
      serialisation of the arguments, and reading that gives the arguments
      back: the double encoding loses nothing. */
  lemma ArgumentsDoubleDecode(args: Option<seq<Json>>)
    ensures DecodeLiteral(ArgumentsLiteral(args)) == Some(Serialize(ArgumentsJson(args)))
    ensures ParseJson(Serialize(ArgumentsJson(args))) == Some(ArgumentsJson(args))
    ensures ArgumentsFromJson(ArgumentsJson(args)) == Some(args)
  {
    LiteralRoundTrip(Serialize(ArgumentsJson(args)));
    SerializeRoundTrip(ArgumentsJson(args));
  }

  /** An example: the arguments `["x","y"]` decode once to that very
      text. */
  lemma ArgumentsExample()
    ensures DecodeLiteral(ArgumentsLiteral(Some([String("x"), String("y")])))
      == Some("[\"x\",\"y\"]")
  {
    ArgumentsDoubleDecode(Some([String("x"), String("y")]));
    SerializeExample();
  }

  lemma SerializeExample()
    ensures Serialize(Array([String("x"), String("y")])) == "[\"x\",\"y\"]"
  {
    var v := Array([String("x"), String("y")]);
    QuotePlainChar('x');
    QuotePlainChar('y');
    assert SerializeElems(v, 1) == ['"', 'y', '"'];
    assert SerializeElems(v, 0) == ['"', 'x', '"'] + "," + ['"', 'y', '"'];
    assert Serialize(v) == "[" + SerializeElems(v, 0) + "]";
  }

  /** A character that needs no escape is quoted as itself. */
  lemma QuotePlainChar(c: char)
    requires c as int >= 0x20 && c != '"' && c != '\\'
    ensures Quote([c]) == ['"', c, '"']
  {
    assert EscapeBody([c]) == EscapeChar(c) + EscapeBody([]);
  }

  // ---------------------------------------------------------------------------
  // Menu entries
  // ---------------------------------------------------------------------------

  /** The entry of a command: its quoted title, then, quoted, the command
      that executes it with its identifier and its twice-encoded arguments. */
  function CommandEntry(quote: string -> string, c: Command): string
  {
    quote(c.title) + " "
      + quote("lsp-execute-command " + quote(c.command) + " " + quote(ArgumentsLiteral(c.arguments)))
  }

  /** The entry of an action without a command: its quoted title, then,
      quoted, a command that applies its workspace edit. `editArgs` stands
      for the text that follows the command name. */
  function ActionEntry(quote: string -> string, editArgs: LspCodeAction -> string, a: LspCodeAction): string
  {
    quote(a.title) + " " + quote("lsp-apply-workspace-edit " + editArgs(a))
  }

  /** The entry of one item once normalised. */
  function Entry(quote: string -> string, editArgs: LspCodeAction -> string, c: ActionOrCommand): string
  {
    match Normalize(c)
    case CommandItem(cmd) => CommandEntry(quote, cmd)
    case ActionItem(a) => ActionEntry(quote, editArgs, a)
  }

  /** One entry per item, in the server's order. */
  function Entries(quote: string -> string, editArgs: LspCodeAction -> string, cs: seq<ActionOrCommand>): (r: seq<string>)
    ensures |r| == |cs|
    ensures forall k :: 0 <= k < |cs| ==> r[k] == Entry(quote, editArgs, cs[k])
  {
    seq(|cs|, k requires 0 <= k < |cs| => Entry(quote, editArgs, cs[k]))
  }

  /** An item that is or carries a command is offered as that command. */
  lemma EntryOfCommand(quote: string -> string, editArgs: LspCodeAction -> string, c: ActionOrCommand, cmd: Command)
    requires c == CommandItem(cmd) || (c.ActionItem? && c.action.command == Some(cmd))
    ensures Entry(quote, editArgs, c) == quote(cmd.title) + " " + quote("lsp-execute-command "
      + quote(cmd.command) + " " + quote(ArgumentsLiteral(cmd.arguments)))
  {
  }

  /** An action without a command is offered under its own title with the
      command that applies its edit. */
  lemma EntryOfBareAction(quote: string -> string, editArgs: LspCodeAction -> string, a: LspCodeAction)
    requires a.command.None?
    ensures Entry(quote, editArgs, ActionItem(a)) == quote(a.title) + " " + quote("lsp-apply-workspace-edit " + editArgs(a))
  {
  }

  // ---------------------------------------------------------------------------
  // The menu
  // ---------------------------------------------------------------------------

  /** `editor_code_actions`: the command sent to the editor, if any. No
      response sends nothing; an empty one sends the no-actions message;
      otherwise `menu` and the entries, in order, separated by single spaces. */
  function EditorCodeActions(
    quote: string -> string,
    editArgs: LspCodeAction -> string,
    result: Option<seq<ActionOrCommand>>): (r: Option<string>)
    ensures r.Some? <==> result.Some?
    ensures result == Some([]) ==> r == Some(NoActions)
    ensures result.Some? && result.value != [] ==>
      r == Some("menu " + Join(" ", Entries(quote, editArgs, result.value)))
  {
    match result
    case None => None
    case Some(cs) =>
      if cs == [] then Some(NoActions)
      else Some("menu " + Join(" ", Entries(quote, editArgs, cs)))
  }

  /** The entries of two lists of items are offered in the order of the
      lists: the menu of a concatenation is the first menu's entries, a
      space, and the second's. */
  lemma MenuOrder(quote: string -> string, editArgs: LspCodeAction -> string, a: seq<ActionOrCommand>, b: seq<ActionOrCommand>)
    requires a != [] && b != []
    ensures EditorCodeActions(quote, editArgs, Some(a + b))
      == Some("menu " + Join(" ", Entries(quote, editArgs, a)) + " " + Join(" ", Entries(quote, editArgs, b)))
  {
    var ea, eb := Entries(quote, editArgs, a), Entries(quote, editArgs, b);
    var e := Entries(quote, editArgs, a + b);
    forall k | 0 <= k < |e| ensures e[k] == (ea + eb)[k] {
      if k < |a| { assert (a + b)[k] == a[k]; } else { assert (a + b)[k] == b[k - |a|]; }
    }
    assert e == ea + eb;
    JoinAppend(" ", ea, eb);
    assert "menu " + Join(" ", e) == "menu " + Join(" ", ea) + " " + Join(" ", eb);
  }

  /** A single item gives a menu of exactly its entry. */
  lemma MenuOfOne(quote: string -> string, editArgs: LspCodeAction -> string, c: ActionOrCommand)
    ensures EditorCodeActions(quote, editArgs, Some([c])) == Some("menu " + Entry(quote, editArgs, c))
  {
  }
}
