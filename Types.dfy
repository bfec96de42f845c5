/** The shared data model of the bridge: the server-section and offset
    defaults, routes, editor-side positions and their rendering, the hover
    precedence setting, and the conversion of a request payload to JSON-RPC
    parameters. */
module Types {

  import opened Wrappers
  import opened Text
  import opened Json

  // ---------------------------------------------------------------------------
  // Configuration
  // ---------------------------------------------------------------------------

  /** How a language server counts the `character` of a position. */
  datatype OffsetEncoding = Utf8 | Utf16

  /** Settings of the server process itself. */
  datatype ServerConfig = ServerConfig(session: string, timeout: nat)

  /** A server configuration section left out of the file: an empty session
      name and a timeout of 0. */
  function DefaultServerConfig(): (c: ServerConfig)
    ensures c.session == [] && c.timeout == 0
  {
    ServerConfig("", 0)
  }

  /** The encoding assumed when a language section does not name one. */
  function DefaultOffsetEncoding(): (e: OffsetEncoding)
    ensures e == Utf16
  {
    Utf16
  }

  // ---------------------------------------------------------------------------
  // Editor side
  // ---------------------------------------------------------------------------

  /** A position in an editor buffer; `column` counts bytes, not characters. */
  datatype KakounePosition = KakounePosition(line: nat, column: nat)

  datatype KakouneRange = KakouneRange(start: KakounePosition, end: KakounePosition)

  /** How hover information and diagnostics are combined for display. */
  datatype HoverPrecedence = DiagnosticsOnly | InfoOnly | DiagnosticsFirst | InfoFirst

  /** `HoverPrecedence::default()`, the setting named `default` in the
      editor's option. */
  function DefaultHoverPrecedence(): (p: HoverPrecedence)
    ensures p == InfoFirst
  {
    InfoFirst
  }

  // ---------------------------------------------------------------------------
  // Routes
  // ---------------------------------------------------------------------------

  /** Identifies one language server connection. */
  datatype Route = Route(session: string, language: string, root: string)

  /** Route equality as derived for the struct: two routes are the same
      connection exactly when all three fields agree. */
  function SameRoute(a: Route, b: Route): (r: bool)
    ensures r <==> a == b
  {
    a.session == b.session && a.language == b.language && a.root == b.root
  }

  // ---------------------------------------------------------------------------
  // Rendering positions
  // ---------------------------------------------------------------------------

  /** `Display` for a position: `line.column`. */
  function FormatPosition(p: KakounePosition): string
  {
    NatToString(p.line) + "." + NatToString(p.column)
  }

  /** `Display` for a range: `start,end`. */
  function FormatRange(r: KakouneRange): string
  {
    FormatPosition(r.start) + "," + FormatPosition(r.end)
  }

  /** Reads `line.column` back. */
  function ParsePosition(s: string): Option<KakounePosition>
  {
    match IndexOf(s, '.')
    case None => None
    case Some(i) =>
      match (ParseNat(s[..i]), ParseNat(s[i + 1..]))
      case (Some(line), Some(column)) => Some(KakounePosition(line, column))
      case _ => None
  }

  /** Reads `line.column,line.column` back. */
  function ParseRange(s: string): Option<KakouneRange>
  {
    match IndexOf(s, ',')
    case None => None
    case Some(i) =>
      match (ParsePosition(s[..i]), ParsePosition(s[i + 1..]))
      case (Some(start), Some(end)) => Some(KakouneRange(start, end))
      case _ => None
  }

  /** In `a + [c] + b`, where `a` does not hold `c`, the first `c` is right
      after `a`. */
  lemma FirstSeparator(a: string, c: char, b: string)
    requires forall i :: 0 <= i < |a| ==> a[i] != c
    ensures IndexOf(a + [c] + b, c) == Some(|a|)
    ensures (a + [c] + b)[..|a|] == a && (a + [c] + b)[|a| + 1..] == b
  {
    var s := a + [c] + b;
    assert s[|a|] == c;
  }

  /** A rendered position contains neither of the separators `,` and ` `. */
  lemma FormatPositionChars(p: KakounePosition)
    ensures forall i :: 0 <= i < |FormatPosition(p)| ==>
      FormatPosition(p)[i] != ',' && FormatPosition(p)[i] != ' '
  {
    var a, b := NatToString(p.line), NatToString(p.column);
    assert FormatPosition(p) == a + "." + b;
    forall i | 0 <= i < |FormatPosition(p)|
      ensures FormatPosition(p)[i] != ',' && FormatPosition(p)[i] != ' '
    {
      if i < |a| { assert FormatPosition(p)[i] == a[i]; }
      else if i > |a| { assert FormatPosition(p)[i] == b[i - |a| - 1]; }
    }
  }

  /** The rendered position reads back as the position: `line.column` is
      decimal line, a dot, decimal column, and nothing else. */
  lemma PositionRoundTrip(p: KakounePosition)
    ensures ParsePosition(FormatPosition(p)) == Some(p)
  {
    var a := NatToString(p.line);
    assert forall i :: 0 <= i < |a| ==> a[i] != '.' by {
      assert AllDigits(a);
    }
    FirstSeparator(a, '.', NatToString(p.column));
    NatRoundTrip(p.line);
    NatRoundTrip(p.column);
  }

  /** The rendered range reads back as the range. */
  lemma RangeRoundTrip(r: KakouneRange)
    ensures ParseRange(FormatRange(r)) == Some(r)
  {
    FormatPositionChars(r.start);
    FirstSeparator(FormatPosition(r.start), ',', FormatPosition(r.end));
    PositionRoundTrip(r.start);
    PositionRoundTrip(r.end);
  }

  // ---------------------------------------------------------------------------
  // Request parameters
  // ---------------------------------------------------------------------------

  /** The three shapes of JSON-RPC parameters. */
  datatype Params = NoParams | Positional(values: seq<Json>) | Keyed(members: seq<(string, Json)>)

  /** The JSON value a set of parameters is sent as. */
  function ParamsJson(p: Params): Json
  {
    match p
    case NoParams => Null
    case Positional(xs) => Array(xs)
    case Keyed(ms) => Object(ms)
  }

  /** `to_params` once the payload is a JSON value: the shape follows the
      value's own shape alone, and the conversion never fails. */
  function ToParams(v: Json): (r: Result<Params, string>)
    ensures r.Ok?
    ensures r.value.NoParams? <==> v.Null?
    ensures r.value.Positional? <==> v.Bool? || v.Number? || v.String? || v.Array?
    ensures r.value.Keyed? <==> v.Object?
    ensures (v.Bool? || v.Number? || v.String?) ==> r.value.values == [v]
    ensures v.Array? ==> r.value.values == v.elems
    ensures v.Object? ==> r.value.members == v.members
  {
    match v
    case Null => Ok(NoParams)
    case Bool(_) => Ok(Positional([v]))
    case Number(_) => Ok(Positional([v]))
    case String(_) => Ok(Positional([v]))
    case Array(xs) => Ok(Positional(xs))
    case Object(ms) => Ok(Keyed(ms))
  }

  /** What is sent is the payload itself, except that a lone scalar is
      wrapped in a one-element array. */
  lemma ToParamsSends(v: Json)
    ensures ParamsJson(ToParams(v).value) == if v.Bool? || v.Number? || v.String? then Array([v]) else v
  {
  }

  /** A scalar and the one-element array holding it become the same
      parameters: the conversion is not injective. */
  lemma ToParamsScalarMerge(v: Json)
    requires v.Bool? || v.Number? || v.String?
    ensures ToParams(v) == ToParams(Array([v]))
  {
  }
}
