# kak-lsp presentation core in Dafny

kak-lsp is the bridge between the Kakoune editor and language servers. This
project models the pure part of that bridge that turns server answers into
editor commands. It proves properties of that model:

- **Parameters and positions** (`src/types.rs`):
  - `to_params` turns a JSON payload into one of the three JSON-RPC parameter shapes.
  - An editor position is rendered `line.column` and a range `start,end`.
  - The fixed defaults: hover precedence, offset encoding and server configuration.
  - Route equality.
- **Hover** (`editor_hover` in `src/language_features/hover.rs`):
  - It selects the diagnostics of the file that cover the queried position.
  - It reduces them and the server's hover result to two texts: messages are trimmed, empty ones dropped, each marked `• `, and joined by newlines.
  - It picks one text, or the two joined by a blank line, according to the hover precedence.
  - It wraps that text in `lsp-show-hover <line>.<column> <quoted text>`.
- **Code actions** (`editor_code_actions` in `src/language_features/codeaction.rs`):
  - No response sends nothing, and an empty one sends the no-actions message.
  - Otherwise each action that carries a command is replaced by that command.
  - Each entry becomes a quoted title and a quoted select command.
  - The entries go, in order and space-separated, after `menu`.
  - A command's arguments are serialised to JSON, and that text is serialised again as a JSON string literal (section 7 of RFC 8259).

Modules:

- `Wrappers`: Option and Result.
- `Text`: Rust's `str::trim` (Unicode White_Space), itertools' `join`, and decimal rendering of unsigned integers.
- `Json`: serde_json's `Value`, its compact writer, string literals as serde_json escapes them, and a reader for the compact text.
- `Types`, `Hover` and `CodeAction`: the three source files.

Everything is a function of its inputs. The editor command that the source
hands to `ctx.exec` is returned as an `Option<string>`, with `None` when
nothing is sent. Two things are function parameters, because their code is
not part of this model:

- the editor's quoting function `editor_quote`, as `quote`;
- the position translated to the server's encoding, as `lspPos`.

Two places where the code does something other than what a reader would
expect. The model follows the code in both:

- **Coverage.** The natural reading of a range is `start <= pos <= end` in
  (line, character) order. The filter at
  `src/language_features/hover.rs:39-49` is instead a four-way disjunction,
  and it is modelled as written (`Hover.Covers`).
  - `Hover.CoversVersusLex` proves exactly where the two differ. The
    disjunction accepts everything the ordering accepts. Beyond that, it
    accepts only positions on a range that starts and ends on the position's
    line, where the character is at or after the start or at or before the
    end.
  - So on an ordered one-line range the whole line is covered.
    `Hover.CoversBeyondEnd` exhibits 1:9 as covered by 1:0-1:5.
- **Bare code actions.** The arm at
  `src/language_features/codeaction.rs:77-87` builds the entry of an action
  that carries no command. It refers to `command` and `cmd`, which are not
  bound in that arm, so as written it does not compile. The model keeps what
  the arm evidently builds:
  - the quoted title;
  - a space;
  - the quoted `lsp-apply-workspace-edit …` command.

  The text after the command name is the parameter `editArgs`.

## Model

| member | source | states |
|---|---|---|
| Types.FormatPosition | src/types.rs:204-208 | `Display` for a position, `line.column`; its properties are stated by Types.PositionRoundTrip and Types.FormatPositionChars |
| Types.FormatRange | src/types.rs:210-214 | `Display` for a range, `start,end`; see Types.RangeRoundTrip |
| Text.Trim | src/language_features/hover.rs:51 | `str::trim`; see Text.TrimSpec, Text.TrimEmptyIff and Text.TrimIdempotent |
| Text.Join | src/language_features/hover.rs:54 | itertools' `join`; see Text.JoinAppend and Text.JoinEmptyIff |
| Hover.Covers | src/language_features/hover.rs:39-49 | the four-way disjunction as written; see Hover.CoversVersusLex and the other Covers lemmas |
| Hover.SelectedMessages | src/language_features/hover.rs:35-51 | the messages of the covering diagnostics; see Hover.SelectedMessagesMember and Hover.SelectedMessagesAppend |
| Hover.BulletItem | src/language_features/hover.rs:51-53 | one text trimmed, dropped if empty, otherwise marked `• `; see Hover.BulletItemShape |
| Hover.Bulleted | src/language_features/hover.rs:51-53 | trim, drop empties and mark every text; see Hover.BulletedShape, Hover.BulletedAppend, Hover.BulletedOne and Hover.BulletedEmpty |
| Hover.BulletText | src/language_features/hover.rs:51-54 | the bullets joined by newlines; see Hover.BulletTextEmpty |
| Hover.DiagnosticsText | src/language_features/hover.rs:30-57 | the diagnostics text, empty when the file has no entry; see Hover.DiagnosticsTextEmpty and Hover.ExampleDiagnostics |
| Hover.MarkedText | src/language_features/hover.rs:112-119 | `PlainText for MarkedString`: a plain string gives itself and a language string its value; see Hover.HoverTextRaw |
| Hover.HoverText | src/language_features/hover.rs:58-70 | the hover text; see Hover.HoverTextRaw, Hover.ScalarUntrimmed and Hover.HoverListLikeDiagnostics |
| Hover.MakeHover | src/language_features/hover.rs:74-76 | `make_hover`; see Hover.MakeHoverReadsBack |
| CodeAction.ArgumentsLiteral | src/language_features/codeaction.rs:70-71 | the arguments serialised, then serialised again as a string literal; see CodeAction.ArgumentsDoubleDecode |
| CodeAction.CommandEntry | src/language_features/codeaction.rs:65-76 | the entry of a command; see CodeAction.EntryOfCommand |
| CodeAction.ActionEntry | src/language_features/codeaction.rs:77-87 | the evident shape of a bare action's entry; see CodeAction.EntryOfBareAction |
| CodeAction.Entry | src/language_features/codeaction.rs:57-88 | the entry of an item once normalised; see CodeAction.EntryOfCommand and CodeAction.EntryOfBareAction |
| Json.Quote | src/language_features/codeaction.rs:71 | `serde_json::to_string` of a string: its JSON string literal; see Json.LiteralRoundTrip and Json.EscapeBodyPrintable |
| Json.Serialize | src/language_features/codeaction.rs:70 | `serde_json::to_string` of a value, compact; see Json.SerializeRoundTrip |
| Types.DefaultServerConfig | src/types.rs:44-51 | a missing server section means an empty session name and a timeout of 0 |
| Types.DefaultOffsetEncoding | src/types.rs:53-55 | a language without an offset encoding uses UTF-16 |
| Types.DefaultHoverPrecedence | src/types.rs:134-138 | `HoverPrecedence::default()` is InfoFirst, the variant whose setting is named `default` |
| Types.SameRoute | src/types.rs:89-94 | two routes are the same exactly when session, language and root all agree, in both directions |
| Types.ToParams | src/types.rs:178-189 | the conversion always succeeds; null gives no parameters and only null does; a bool, number or string gives the one-element positional list holding that value; an array gives a positional list with the same elements in the same order; an object gives keyed parameters with the same members |
| Types.ToParamsSends | src/types.rs:181-186 | the JSON sent is the payload itself, except that a lone scalar is wrapped in a one-element array |
| Types.ToParamsScalarMerge | src/types.rs:183-184 | a scalar and the one-element array holding it become the same parameters |
| Text.NatToString | src/types.rs:206 | a number is rendered as a non-empty run of decimal digits, with no leading zero unless the number is 0, that denotes the number |
| Text.NatRoundTrip | src/types.rs:206 | reading the rendered digits back gives the number |
| Types.FormatPositionChars | src/types.rs:204-208 | a rendered position holds no `,` and no space, so a range and a hover command can be split at them |
| Types.PositionRoundTrip | src/types.rs:204-208 | `line.column` reads back as the same position: decimal line, one dot, decimal column, nothing else |
| Types.RangeRoundTrip | src/types.rs:210-214 | `start,end` reads back as the same range |
| Hover.CoversWithinLines | src/language_features/hover.rs:39-49 | a covered position always lies on a line from the range's start line to its end line |
| Hover.CoversInteriorLine | src/language_features/hover.rs:39 | a position on a line strictly inside the range is covered whatever its character |
| Hover.CoversWholeSingleLine | src/language_features/hover.rs:44-49 | on an ordered range lying on the position's line, every character of the line is covered |
| Hover.CoversVersusLex | src/language_features/hover.rs:39-49 | coverage holds exactly when `start <= pos <= end` holds or the range lies on the position's line with the character at or after the start or at or before the end; on a range spanning several lines it agrees with `start <= pos <= end` |
| Hover.CoversBeyondEnd | src/language_features/hover.rs:44-46 | 1:9 is covered by 1:0-1:5 although it lies after the end |
| Hover.CoversEndpoints | src/language_features/hover.rs:40-46 | a range whose start line is not after its end line covers its start and its end, and a one-point range covers its point |
| Hover.SelectedMessagesAppend | src/language_features/hover.rs:35-51 | selection keeps list order: selecting from a concatenation concatenates the selections |
| Hover.SelectedMessagesMember | src/language_features/hover.rs:35-51 | a message is selected exactly when some diagnostic that covers the position carries it |
| Hover.AllSelected | src/language_features/hover.rs:35-51 | when every diagnostic covers the position, all messages are selected in order |
| Text.TrimSpec | src/language_features/hover.rs:51 | the trimmed text is a slice of the original, neither starts nor ends with whitespace, and everything cut from both ends is whitespace |
| Text.TrimEmptyIff | src/language_features/hover.rs:51-52 | the trimmed text is empty exactly when the original is all whitespace |
| Text.TrimIdempotent | src/language_features/hover.rs:51 | trimming twice is trimming once |
| Hover.BulletItemShape | src/language_features/hover.rs:51-53 | one text yields at most one bullet, and it is a well-formed bullet |
| Hover.BulletedShape | src/language_features/hover.rs:51-53 | there are no more bullets than texts; each is `• ` followed by a non-empty text with no whitespace at either end |
| Hover.BulletedAppend | src/language_features/hover.rs:51-53 | bulleting keeps the order of the texts |
| Hover.BulletedOne | src/language_features/hover.rs:51-53 | one text gives nothing if it is all whitespace and otherwise `• ` and its trimmed form |
| Hover.BulletedEmpty | src/language_features/hover.rs:51-53 | no bullet is left exactly when every text is all whitespace |
| Hover.BulletTextEmpty | src/language_features/hover.rs:51-54 | the newline-joined bullets are empty exactly when every text is all whitespace |
| Text.JoinAppend | src/language_features/hover.rs:54 | joining a concatenation joins each half with one separator between them |
| Text.JoinEmptyIff | src/language_features/hover.rs:54 | when no part is empty, the join is empty exactly when there are no parts |
| Hover.DiagnosticsTextEmpty | src/language_features/hover.rs:30-57 | the diagnostics text is empty exactly when every diagnostic that covers the position has an all-whitespace message |
| Hover.HoverTextRaw | src/language_features/hover.rs:58-70 | no result gives the empty text; a lone plain or language string gives its text and markup its raw value, untrimmed |
| Hover.ScalarUntrimmed | src/language_features/hover.rs:61-67 | a lone ` x ` stays ` x `, while the same string in a list becomes `• x` |
| Hover.HoverListLikeDiagnostics | src/language_features/hover.rs:62-67 | a list of marked strings is reduced exactly as the same texts would be as covering diagnostic messages |
| Hover.ShownText | src/language_features/hover.rs:78-105 | the decision table: both texts empty shows nothing; exactly one non-empty shows that one under every precedence; both non-empty shows diagnostics, contents, diagnostics-blank-line-contents or contents-blank-line-diagnostics for DiagnosticsOnly, InfoOnly, DiagnosticsFirst and InfoFirst |
| Hover.DefaultPutsInfoFirst | src/language_features/hover.rs:98-104 | under the default precedence, with both texts present, the shown text begins with the hover contents |
| Hover.MakeHoverReadsBack | src/language_features/hover.rs:74-76 | the command is `lsp-show-hover `, the editor position, which reads back unchanged, one space, and then exactly the text |
| Hover.EditorHover | src/language_features/hover.rs:24-105 | no command is sent exactly when both texts are empty; otherwise the command shows the quoted text the decision table picks, at the editor position |
| Hover.ExampleDiagnostics | src/language_features/hover.rs:32-57 | the diagnostic `bad` on 1:0-1:5, at 1:3, gives the text `• bad` |
| Hover.ExampleInfoFirst | src/language_features/hover.rs:30-105 | hover text `type: int` and that diagnostic under InfoFirst show `type: int`, a blank line, and `• bad` |
| CodeAction.Normalize | src/language_features/codeaction.rs:57-63 | an action that carries a command becomes that command; a command, and an action without one, are unchanged |
| CodeAction.NormalizeIdempotent | src/language_features/codeaction.rs:57-63 | normalising twice is normalising once, and whatever is still an action carries no command |
| CodeAction.Entries | src/language_features/codeaction.rs:55-89 | one entry per item, in the server's order, each item's entry computed from the item alone |
| CodeAction.EntryOfCommand | src/language_features/codeaction.rs:57-76 | an item that is or carries a command is offered as its quoted title, a space, and the quoted `lsp-execute-command` with the quoted identifier and the quoted twice-encoded arguments |
| CodeAction.EntryOfBareAction | src/language_features/codeaction.rs:77-87 | an action without a command is offered as its quoted title, a space, and the quoted `lsp-apply-workspace-edit` command |
| CodeAction.ArgumentsDoubleDecode | src/language_features/codeaction.rs:68-72 | decoding the payload once as a string literal gives exactly the first serialisation of the arguments, that text parses as their JSON value, and that value gives the arguments back |
| CodeAction.SerializeExample | src/language_features/codeaction.rs:70 | the arguments `["x","y"]` serialise to the text `["x","y"]` |
| CodeAction.ArgumentsExample | src/language_features/codeaction.rs:70-71 | the twice-encoded `["x","y"]` decodes once to `["x","y"]` |
| Json.LiteralRoundTrip | src/language_features/codeaction.rs:71 | any text, with quotes, backslashes or control characters in it, is recovered by decoding its JSON string literal |
| Json.EscapeBodyPrintable | src/language_features/codeaction.rs:71 | no control character appears unescaped inside a string literal, so the payload never breaks across lines |
| Json.SerializeRoundTrip | src/language_features/codeaction.rs:70 | reading the compact serialisation of any JSON value gives the value back |
| CodeAction.EditorCodeActions | src/language_features/codeaction.rs:38-90 | a command is sent exactly when there is a response; an empty response sends exactly the no-actions message; otherwise `menu ` and the entries joined by single spaces |
| CodeAction.MenuOrder | src/language_features/codeaction.rs:55-90 | the menu of two lists of items is the first list's entries, one space, and the second's |
| CodeAction.MenuOfOne | src/language_features/codeaction.rs:89-90 | a single item gives `menu ` followed by exactly its entry |

## Left out

- Hover.EditorHover assumes the position translation succeeded: when `get_lsp_position` returns None, src/language_features/hover.rs:31 panics through `unwrap`, and the model has no such case (`lspPos` is a plain parameter).
- `get_lsp_position` and the byte-column to UTF-16 translation live in the `util` module, which is not part of this model. The translated position is the parameter `lspPos` of `Hover.EditorHover`.
- `editor_quote`, also in `util`, is the parameter `quote`. Nothing is assumed about it.
- The text that follows `lsp-apply-workspace-edit` in a bare action's entry is the parameter `editArgs`, because that arm does not compile (see above).
- `text_document_hover` and `text_document_codeaction` are left out. They deserialise the request, build the URL, and hand a continuation to `ctx.call` on the asynchronous dispatcher.
- `Context` as live state is left out. The file's diagnostics are passed in, and the command for `ctx.exec` is returned.
- `Config`, `LanguageConfig`, `EditorMeta`, `EditorRequest`, `HoverParams` and the other request and configuration structs, and their deserialisation from TOML or JSON, are not modelled; deserialisation is library behaviour. `editor_hover` reads only `meta.buffile`, `HoverParams.position` and `HoverParams.info_precedence`. These are the parameters `entry`, `position` and `prec` of `Hover.EditorHover`. No other field of these structs is read.
- `Types.ToParams` starts from a JSON value. The failure of `serde_json::to_value` for a value with no JSON form belongs to serde and is not modelled.
- The `info!` loop at `src/language_features/codeaction.rs:43-48` only logs. Logging has no counterpart, so the result is the same with or without it.
- `ServerMessage` only wraps jsonrpc_core types and is not modelled.
- The empty `if` at `src/language_features/hover.rs:72` does nothing.
- The `u64` fields (position line and column, timeout) are unbounded naturals. The modelled functions only compare and render them and do no arithmetic on them, so no wrap-around can arise.
- JSON numbers are integers. serde_json's floating-point numbers are not modelled.
- The JSON reader accepts only the compact text serde_json writes: no whitespace between tokens. It is there to state the round trips, not to model a general parser.
- An object's members are kept in the order serde_json's map iterates them. That order is taken as given, not modelled.
- A code action's `diagnostics` field is not read by the menu and is not modelled.
