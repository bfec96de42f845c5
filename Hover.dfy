/** Hover: selects the diagnostics that cover the queried position, reduces
    them and the server's hover result to text, and combines the two texts
    as the precedence setting says into one `lsp-show-hover` command. */
module Hover {

  import opened Wrappers
  import opened Text
  import opened Types

  /** A protocol position: `character` counts in the server's offset encoding. */
  datatype LspPosition = LspPosition(line: nat, character: nat)

  datatype LspRange = LspRange(start: LspPosition, end: LspPosition)

  /** A diagnostic as received from the server; only its range and message
      matter here. */
  datatype Diagnostic = Diagnostic(range: LspRange, message: string)

  datatype MarkedString = PlainString(text: string) | LanguageString(language: string, value: string)

  datatype MarkupKind = PlainText | Markdown

  datatype HoverContents =
    | Scalar(marked: MarkedString)
    | Array(items: seq<MarkedString>)
    | Markup(kind: MarkupKind, value: string)

  datatype HoverResult = HoverResult(contents: HoverContents, range: Option<LspRange>)

  // ---------------------------------------------------------------------------
  // Which diagnostics cover a position
  // ---------------------------------------------------------------------------

  /** The coverage test exactly as the filter writes it: four disjuncts. */
  predicate Covers(r: LspRange, pos: LspPosition)
  {
    var start, end := r.start, r.end;
    || (start.line < pos.line && pos.line < end.line)
    || (start.line == pos.line && pos.line == end.line
        && start.character <= pos.character && pos.character <= end.character)
    || (start.line == pos.line && pos.line <= end.line && start.character <= pos.character)
    || (start.line <= pos.line && end.line == pos.line && pos.character <= end.character)
  }

  /** Lexicographic order on (line, character). */
  predicate LexLe(a: LspPosition, b: LspPosition)
  {
    a.line < b.line || (a.line == b.line && a.character <= b.character)
  }

  /** The lexicographic rule `start <= pos <= end`. */
  predicate LexCovers(r: LspRange, pos: LspPosition)
  {
    LexLe(r.start, pos) && LexLe(pos, r.end)
  }

  /** Every disjunct confines the position to the lines of the range. */
  lemma CoversWithinLines(r: LspRange, pos: LspPosition)
    ensures Covers(r, pos) ==> r.start.line <= pos.line <= r.end.line
  {
  }

  /** A line strictly inside the range is covered whatever the character. */
  lemma CoversInteriorLine(r: LspRange, pos: LspPosition)
    requires r.start.line < pos.line < r.end.line
    ensures Covers(r, pos)
  {
  }

  /** On a well-ordered range that starts and ends on the position's line,
      every character of the line is covered. */
  lemma CoversWholeSingleLine(r: LspRange, pos: LspPosition)
    requires r.start.line == pos.line == r.end.line
    requires LexLe(r.start, r.end)
    ensures Covers(r, pos)
  {
  }

  /** Exactly where the filter departs from `start <= pos <= end`: it accepts
      all the lexicographic rule accepts, and beyond that only positions on a
      range that lies on the position's line, with the character at or after
      the start or at or before the end. */
  lemma CoversVersusLex(r: LspRange, pos: LspPosition)
    ensures Covers(r, pos) <==>
      || LexCovers(r, pos)
      || (r.start.line == pos.line == r.end.line
          && (r.start.character <= pos.character || pos.character <= r.end.character))
    ensures r.start.line != r.end.line ==> (Covers(r, pos) <==> LexCovers(r, pos))
  {
  }

  /** A range covers both of its ends, and a one-point range covers its
      point, whenever its start line is not after its end line. */
  lemma CoversEndpoints(r: LspRange)
    requires r.start.line <= r.end.line
    ensures Covers(r, r.start) && Covers(r, r.end)
    ensures Covers(LspRange(r.start, r.start), r.start)
  {
  }

  /** The departure is real: on the range 1:0-1:5, character 9 of line 1 is
      covered although it lies after the end. */
  lemma CoversBeyondEnd()
    ensures Covers(LspRange(LspPosition(1, 0), LspPosition(1, 5)), LspPosition(1, 9))
    ensures !LexCovers(LspRange(LspPosition(1, 0), LspPosition(1, 5)), LspPosition(1, 9))
  {
  }

  /** The messages of the diagnostics that cover `pos`, in their order. */
  function SelectedMessages(ds: seq<Diagnostic>, pos: LspPosition): seq<string>
    decreases |ds|
  {
    if ds == [] then []
    else (if Covers(ds[0].range, pos) then [ds[0].message] else []) + SelectedMessages(ds[1..], pos)
  }

  /** Selection keeps the order of the list: selecting from a concatenation
      is concatenating the selections. */
  lemma {:induction false} SelectedMessagesAppend(a: seq<Diagnostic>, b: seq<Diagnostic>, pos: LspPosition)
    ensures SelectedMessages(a + b, pos) == SelectedMessages(a, pos) + SelectedMessages(b, pos)
    decreases |a|
  {
    if a == [] {
      assert a + b == b;
    } else {
      var head := if Covers(a[0].range, pos) then [a[0].message] else [];
      assert (a + b)[0] == a[0] && (a + b)[1..] == a[1..] + b;
      assert SelectedMessages(a + b, pos) == head + SelectedMessages(a[1..] + b, pos);
      SelectedMessagesAppend(a[1..], b, pos);
      assert SelectedMessages(a, pos) == head + SelectedMessages(a[1..], pos);
    }
  }

  /** A message is selected exactly when some covering diagnostic carries it. */
  lemma {:induction false} SelectedMessagesMember(ds: seq<Diagnostic>, pos: LspPosition, m: string)
    ensures m in SelectedMessages(ds, pos) <==> exists d :: d in ds && Covers(d.range, pos) && d.message == m
    decreases |ds|
  {
    if ds != [] {
      SelectedMessagesMember(ds[1..], pos, m);
      assert forall d :: d in ds <==> d == ds[0] || d in ds[1..];
    }
  }

  // ---------------------------------------------------------------------------
  // Reducing a list of texts to bullets
  // ---------------------------------------------------------------------------

  /** The bullet marker `• ` that starts every listed line. */
  const Bullet: string := ['•', ' ']

  /** One text trimmed and marked with a bullet, or nothing if it is empty
      once trimmed. */
  function BulletItem(text: string): seq<string>
  {
    var t := Trim(text);
    if t == [] then [] else [Bullet + t]
  }

  /** The texts trimmed, the empty ones dropped, each marked with a bullet. */
  function Bulleted(texts: seq<string>): seq<string>
    decreases |texts|
  {
    if texts == [] then [] else BulletItem(texts[0]) + Bulleted(texts[1..])
  }

  /** At most one bullet per text, and each bullet is the marker followed
      by a non-empty text with no whitespace at either end. */
  lemma {:induction false} BulletedShape(texts: seq<string>)
    ensures |Bulleted(texts)| <= |texts|
    ensures forall b :: b in Bulleted(texts) ==> IsBullet(b)
    decreases |texts|
  {
    if texts != [] {
      BulletedShape(texts[1..]);
      BulletItemShape(texts[0]);
      var head, tail := BulletItem(texts[0]), Bulleted(texts[1..]);
      assert Bulleted(texts) == head + tail;
      assert forall b :: b in head + tail ==> b in head || b in tail;
    }
  }

  /** A bullet is the marker followed by a non-empty text with no whitespace
      at either end. */
  predicate IsBullet(b: string)
  {
    && |b| > |Bullet|
    && b[..|Bullet|] == Bullet
    && !IsWhitespace(b[|Bullet|])
    && !IsWhitespace(b[|b| - 1])
  }

  lemma BulletItemShape(text: string)
    ensures |BulletItem(text)| <= 1
    ensures forall b :: b in BulletItem(text) ==> IsBullet(b)
  {
    var t := Trim(text);
    if t != [] {
      TrimSpec(text);
      BulletOf(t);
    }
  }

  /** The marker put before a text that neither starts nor ends with
      whitespace makes a bullet. */
  lemma BulletOf(t: string)
    requires t != [] && !IsWhitespace(t[0]) && !IsWhitespace(t[|t| - 1])
    ensures IsBullet(Bullet + t)
  {
    var b := Bullet + t;
    assert b[..|Bullet|] == Bullet && b[|Bullet|] == t[0] && b[|b| - 1] == t[|t| - 1];
  }

  /** Bulleting keeps the order of the texts. */
  lemma {:induction false} BulletedAppend(a: seq<string>, b: seq<string>)
    ensures Bulleted(a + b) == Bulleted(a) + Bulleted(b)
    decreases |a|
  {
    if a == [] {
      assert a + b == b;
    } else {
      assert (a + b)[0] == a[0] && (a + b)[1..] == a[1..] + b;
      BulletedAppend(a[1..], b);
    }
  }

  /** One text becomes one bullet, or nothing when it is all whitespace. */
  lemma BulletedOne(m: string)
    ensures Bulleted([m]) == if AllWhitespace(m) then [] else [Bullet + Trim(m)]
  {
    TrimEmptyIff(m);
    assert [m][1..] == [];
  }

  /** No bullet survives exactly when every text is whitespace only. */
  lemma {:induction false} BulletedEmpty(texts: seq<string>)
    ensures Bulleted(texts) == [] <==> forall i :: 0 <= i < |texts| ==> AllWhitespace(texts[i])
    decreases |texts|
  {
    if texts != [] {
      TrimEmptyIff(texts[0]);
      BulletedEmpty(texts[1..]);
      assert forall i :: 1 <= i < |texts| ==> texts[i] == texts[1..][i - 1];
    }
  }

  /** The bullets, one per line. */
  function BulletText(texts: seq<string>): string
  {
    Join("\n", Bulleted(texts))
  }

  /** The bullet text is empty exactly when every text is whitespace only. */
  lemma BulletTextEmpty(texts: seq<string>)
    ensures BulletText(texts) == [] <==> forall i :: 0 <= i < |texts| ==> AllWhitespace(texts[i])
  {
    var bs := Bulleted(texts);
    BulletedEmpty(texts);
    BulletedShape(texts);
    assert forall i :: 0 <= i < |bs| ==> bs[i] in bs;
    JoinEmptyIff("\n", bs);
  }

  // ---------------------------------------------------------------------------
  // The two texts
  // ---------------------------------------------------------------------------

  /** The diagnostics part: the covering diagnostics' messages as bullets.
      A file with no diagnostics entry gives the empty text. */
  function DiagnosticsText(entry: Option<seq<Diagnostic>>, pos: LspPosition): string
  {
    match entry
    case None => ""
    case Some(ds) => BulletText(SelectedMessages(ds, pos))
  }

  /** The diagnostics text is empty exactly when no covering diagnostic has
      a message with anything but whitespace in it. */
  lemma DiagnosticsTextEmpty(ds: seq<Diagnostic>, pos: LspPosition)
    ensures DiagnosticsText(Some(ds), pos) == [] <==>
      forall d :: d in ds && Covers(d.range, pos) ==> AllWhitespace(d.message)
  {
    var ms := SelectedMessages(ds, pos);
    BulletTextEmpty(ms);
    if forall i :: 0 <= i < |ms| ==> AllWhitespace(ms[i]) {
      forall d | d in ds && Covers(d.range, pos) ensures AllWhitespace(d.message) {
        SelectedMessagesMember(ds, pos, d.message);
      }
    } else {
      var i :| 0 <= i < |ms| && !AllWhitespace(ms[i]);
      SelectedMessagesMember(ds, pos, ms[i]);
    }
  }

  /** `plaintext` of a marked string: its text, whichever kind it is. */
  function MarkedText(m: MarkedString): string
  {
    match m
    case PlainString(s) => s
    case LanguageString(_, v) => v
  }

  function MarkedTexts(items: seq<MarkedString>): (r: seq<string>)
    ensures |r| == |items| && forall i :: 0 <= i < |items| ==> r[i] == MarkedText(items[i])
  {
    seq(|items|, i requires 0 <= i < |items| => MarkedText(items[i]))
  }

  /** The hover part: nothing for no result; a single marked string as it is,
      untrimmed; a list of them as bullets, like the diagnostics; markup as
      its raw value. */
  function HoverText(result: Option<HoverResult>): string
  {
    match result
    case None => ""
    case Some(h) =>
      match h.contents
      case Scalar(m) => MarkedText(m)
      case Array(items) => BulletText(MarkedTexts(items))
      case Markup(_, value) => value
  }

  /** A list of marked strings is reduced exactly as the same texts would be
      as diagnostic messages. */
  lemma HoverListLikeDiagnostics(items: seq<MarkedString>, r: Option<LspRange>, pos: LspPosition)
    ensures HoverText(Some(HoverResult(Array(items), r))) ==
      DiagnosticsText(Some(seq(|items|, i requires 0 <= i < |items| =>
        Diagnostic(LspRange(pos, pos), MarkedText(items[i])))), pos)
  {
    var ds := seq(|items|, i requires 0 <= i < |items| => Diagnostic(LspRange(pos, pos), MarkedText(items[i])));
    AllSelected(ds, pos);
    assert MarkedTexts(items) == seq(|ds|, i requires 0 <= i < |ds| => ds[i].message);
  }

  /** When every diagnostic covers the position, all messages are selected. */
  lemma {:induction false} AllSelected(ds: seq<Diagnostic>, pos: LspPosition)
    requires forall i :: 0 <= i < |ds| ==> Covers(ds[i].range, pos)
    ensures SelectedMessages(ds, pos) == seq(|ds|, i requires 0 <= i < |ds| => ds[i].message)
    decreases |ds|
  {
    if ds != [] {
      AllSelected(ds[1..], pos);
    }
  }

  /** No result gives no text; a lone marked string of either kind gives its
      text, and markup its raw value, with nothing trimmed or added. */
  lemma HoverTextRaw(language: string, v: string, kind: MarkupKind, r: Option<LspRange>)
    ensures HoverText(None) == []
    ensures HoverText(Some(HoverResult(Scalar(PlainString(v)), r))) == v
    ensures HoverText(Some(HoverResult(Scalar(LanguageString(language, v)), r))) == v
    ensures HoverText(Some(HoverResult(Markup(kind, v), r))) == v
  {
  }

  /** A lone marked string is not trimmed, while the same string in a list is. */
  lemma ScalarUntrimmed()
    ensures HoverText(Some(HoverResult(Scalar(PlainString(" x ")), None))) == " x "
    ensures HoverText(Some(HoverResult(Array([PlainString(" x ")]), None))) == Bullet + "x"
  {
    var t := " x ";
    assert !IsWhitespace(t[1]);
    assert TrimStart(t) == t[1..];
    assert TrimEnd(t[1..]) == "x";
    BulletedOne(t);
    assert MarkedTexts([PlainString(t)]) == [t];
  }

  // ---------------------------------------------------------------------------
  // Combining them
  // ---------------------------------------------------------------------------

  /** The text to display, chosen by the precedence and by which of the two
      texts are empty; nothing at all when both are. The tests are the
      arms of the source's match, in its order; the contract is the
      decision table stated on its own. */
  function ShownText(prec: HoverPrecedence, contents: string, diagnostics: string): (r: Option<string>)
    ensures contents == [] && diagnostics == [] ==> r == None
    ensures contents == [] && diagnostics != [] ==> r == Some(diagnostics)
    ensures contents != [] && diagnostics == [] ==> r == Some(contents)
    ensures contents != [] && diagnostics != [] ==> r == Some(
      match prec
      case DiagnosticsOnly => diagnostics
      case InfoOnly => contents
      case DiagnosticsFirst => diagnostics + "\n\n" + contents
      case InfoFirst => contents + "\n\n" + diagnostics)
  {
    if contents == [] && diagnostics == [] then None
    else if (contents == [] && diagnostics != []) || (prec.DiagnosticsOnly? && diagnostics != []) then
      Some(diagnostics)
    else if (contents != [] && diagnostics == []) || (prec.InfoOnly? && contents != []) then
      Some(contents)
    else if prec.DiagnosticsFirst? then Some(diagnostics + "\n\n" + contents)
    else Some(contents + "\n\n" + diagnostics)
  }

  /** Under the default precedence, hover information comes first. */
  lemma DefaultPutsInfoFirst(contents: string, diagnostics: string)
    requires contents != [] && diagnostics != []
    ensures ShownText(DefaultHoverPrecedence(), contents, diagnostics).Some?
    ensures ShownText(DefaultHoverPrecedence(), contents, diagnostics).value[..|contents|] == contents
  {
  }

  /** The command that shows `text` at `pos`. */
  function MakeHover(pos: KakounePosition, text: string): string
  {
    "lsp-show-hover " + FormatPosition(pos) + " " + text
  }

  /** `editor_hover`: the command sent to the editor, if any. `quote` is the
      editor's quoting function; `lspPos` is `position` translated to the
      server's encoding; `entry` is the file's current diagnostics, if any. */
  function EditorHover(
    quote: string -> string,
    prec: HoverPrecedence,
    position: KakounePosition,
    lspPos: LspPosition,
    result: Option<HoverResult>,
    entry: Option<seq<Diagnostic>>): (r: Option<string>)
    ensures r.None? <==> HoverText(result) == [] && DiagnosticsText(entry, lspPos) == []
    ensures r.Some? ==> r.value == MakeHover(position,
      quote(ShownText(prec, HoverText(result), DiagnosticsText(entry, lspPos)).value))
  {
    match ShownText(prec, HoverText(result), DiagnosticsText(entry, lspPos))
    case None => None
    case Some(text) => Some(MakeHover(position, quote(text)))
  }

  /** The command names the editor position, which the editor reads back
      unchanged, and ends with the quoted text after one space. */
  lemma MakeHoverReadsBack(pos: KakounePosition, text: string)
    ensures var cmd := MakeHover(pos, text);
      var n := |FormatPosition(pos)|;
      && |cmd| == 16 + n + |text|
      && cmd[..15] == "lsp-show-hover "
      && ParsePosition(cmd[15..15 + n]) == Some(pos)
      && cmd[15 + n] == ' '
      && cmd[16 + n..] == text
  {
    CommandParts(FormatPosition(pos), text);
    PositionRoundTrip(pos);
  }

  /** Where the pieces of a `lsp-show-hover` command sit in its text. */
  lemma CommandParts(f: string, text: string)
    ensures var cmd := "lsp-show-hover " + f + " " + text;
      && |cmd| == 16 + |f| + |text|
      && cmd[..15] == "lsp-show-hover "
      && cmd[15..15 + |f|] == f
      && cmd[15 + |f|] == ' '
      && cmd[16 + |f|..] == text
  {
    var cmd := "lsp-show-hover " + f + " " + text;
    assert cmd[15..15 + |f|] == f;
    assert cmd[16 + |f|..] == text;
  }

  /** An example: a diagnostic "bad" on 1:0-1:5, hover text
      "type: int", queried at 1:3 under the default precedence, shows the
      hover text, a blank line, and the bulleted diagnostic. */
  lemma ExampleInfoFirst()
    ensures ShownText(InfoFirst,
      HoverText(Some(HoverResult(Scalar(PlainString("type: int")), None))),
      DiagnosticsText(Some([Diagnostic(LspRange(LspPosition(1, 0), LspPosition(1, 5)), "bad")]), LspPosition(1, 3)))
      == Some("type: int" + "\n\n" + (Bullet + "bad"))
  {
    ExampleDiagnostics();
    var c, d := "type: int", Bullet + "bad";
    assert HoverText(Some(HoverResult(Scalar(PlainString(c)), None))) == c;
    assert c != [] && d != [];
    assert ShownText(InfoFirst, c, d) == Some(c + "\n\n" + d);
  }

  lemma ExampleDiagnostics()
    ensures DiagnosticsText(Some([Diagnostic(LspRange(LspPosition(1, 0), LspPosition(1, 5)), "bad")]), LspPosition(1, 3))
      == Bullet + "bad"
  {
    var d := Diagnostic(LspRange(LspPosition(1, 0), LspPosition(1, 5)), "bad");
    assert SelectedMessages([d], LspPosition(1, 3)) == ["bad"] by {
      assert [d][1..] == [];
    }
    BadTrimmed();
    BulletedOne("bad");
  }

  lemma BadTrimmed()
    ensures Trim("bad") == "bad" && !AllWhitespace("bad")
  {
    var t := "bad";
    assert !IsWhitespace(t[0]) && !IsWhitespace(t[2]);
  }
}
