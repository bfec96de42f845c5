/** The slice of JSON the bridge relies on: serde_json's `Value`, its compact
    serialisation (`serde_json::to_string`), and a reader for that text.
    String literals follow section 7 of RFC 8259. Numbers are integers here. */
module Json {

  import opened Wrappers
  import opened Text

  /** serde_json's `Value`. An object's members are kept in the order the
      map iterates them, which is the order in which they are written. */
  datatype Json =
    | Null
    | Bool(b: bool)
    | Number(n: int)
    | String(s: string)
    | Array(elems: seq<Json>)
    | Object(members: seq<(string, Json)>)

  // ---------------------------------------------------------------------------
  // String literals (section 7 of RFC 8259)
  // ---------------------------------------------------------------------------

  /** Lower-case hexadecimal digit, as serde_json writes it. */
  function HexDigit(d: nat): (c: char)
    requires d < 16
    ensures HexValue(c) == Some(d)
  {
    if d < 10 then DigitChar(d) else ('a' as int + d - 10) as char
  }

  /** The value of a hexadecimal digit of either case. */
  function HexValue(c: char): (r: Option<nat>)
    ensures r.Some? ==> r.value < 16
  {
    if '0' <= c <= '9' then Some(c as int - '0' as int)
    else if 'a' <= c <= 'f' then Some(c as int - 'a' as int + 10)
    else if 'A' <= c <= 'F' then Some(c as int - 'A' as int + 10)
    else None
  }

  /** The value of four hexadecimal digits. */
  function Hex4(s: string): (r: Option<nat>)
    requires |s| == 4
    ensures r.Some? ==> r.value < 0x10000
  {
    match (HexValue(s[0]), HexValue(s[1]), HexValue(s[2]), HexValue(s[3]))
    case (Some(a), Some(b), Some(c), Some(d)) => Some(((a * 16 + b) * 16 + c) * 16 + d)
    case _ => None
  }

  /** How serde_json writes one character inside a string literal: the quote,
      the backslash and the control characters are escaped (the five with a
      short form use it, the others `\u00XX`); everything else is itself. */
  function EscapeChar(c: char): string
  {
    if c == '"' then "\\\""
    else if c == '\\' then "\\\\"
    else if c == 8 as char then "\\b"
    else if c == 12 as char then "\\f"
    else if c == '\n' then "\\n"
    else if c == '\r' then "\\r"
    else if c == '\t' then "\\t"
    else if (c as int) < 0x20 then "\\u00" + [HexDigit(c as int / 16), HexDigit(c as int % 16)]
    else [c]
  }

  function EscapeBody(s: string): string
    decreases |s|
  {
    if s == [] then [] else EscapeChar(s[0]) + EscapeBody(s[1..])
  }

  /** The JSON string literal of `s`: `serde_json::to_string` of a string. */
  function Quote(s: string): string
  {
    "\"" + EscapeBody(s) + "\""
  }

  /** Reads the escape sequence at the head of `s` (which starts with a
      backslash): the character it denotes and how many characters it spans.
      A `\u` escape of a high surrogate must be followed by one of a low
      surrogate, and the pair denotes one character beyond U+FFFF. */
  function Unescape(s: string): (r: Option<(char, nat)>)
    requires s != [] && s[0] == '\\'
    ensures r.Some? ==> 2 <= r.value.1 <= |s|
  {
    if |s| < 2 then None
    else if s[1] == '"' then Some(('"', 2))
    else if s[1] == '\\' then Some(('\\', 2))
    else if s[1] == '/' then Some(('/', 2))
    else if s[1] == 'b' then Some((8 as char, 2))
    else if s[1] == 'f' then Some((12 as char, 2))
    else if s[1] == 'n' then Some(('\n', 2))
    else if s[1] == 'r' then Some(('\r', 2))
    else if s[1] == 't' then Some(('\t', 2))
    else if s[1] != 'u' || |s| < 6 then None
    else match Hex4(s[2..6])
      case None => None
      case Some(u) =>
        if u < 0xD800 || 0xDFFF < u then Some((u as char, 6))
        else if 0xDC00 <= u || |s| < 12 || s[6] != '\\' || s[7] != 'u' then None
        else match Hex4(s[8..12])
          case None => None
          case Some(lo) =>
            if lo < 0xDC00 || 0xDFFF < lo then None
            else Some(((0x10000 + (u - 0xD800) * 0x400 + (lo - 0xDC00)) as char, 12))
  }

  /** Reads the characters of a string literal after its opening quote, up to
      and including the closing quote: the string denoted and what follows. */
  function ParseStringBody(s: string): (r: Option<(string, string)>)
    ensures r.Some? ==> |r.value.1| < |s|
    decreases |s|
  {
    if s == [] then None
    else if s[0] == '"' then Some(([], s[1..]))
    else if s[0] == '\\' then
      match Unescape(s)
      case None => None
      case Some((c, k)) =>
        match ParseStringBody(s[k..])
        case None => None
        case Some((v, rest)) => Some(([c] + v, rest))
    else if (s[0] as int) < 0x20 then None
    else
      match ParseStringBody(s[1..])
      case None => None
      case Some((v, rest)) => Some(([s[0]] + v, rest))
  }

  /** Reads a string literal at the head of `s`. */
  function ParseString(s: string): (r: Option<(string, string)>)
    ensures r.Some? ==> |r.value.1| < |s|
  {
    if s != [] && s[0] == '"' then ParseStringBody(s[1..]) else None
  }

  /** Decodes text that is exactly one string literal. */
  function DecodeLiteral(s: string): Option<string>
  {
    match ParseString(s)
    case Some((v, rest)) => if rest == [] then Some(v) else None
    case None => None
  }

  /** What `ParseStringBody` gives once `c` has been read off the front. */
  function Prepend(c: char, r: Option<(string, string)>): Option<(string, string)>
  {
    match r
    case None => None
    case Some((v, rest)) => Some(([c] + v, rest))
  }

  /** Reading back the escape of one character gives the character and
      continues right after the escape. */
  lemma EscapeCharStep(c: char, t: string)
    ensures ParseStringBody(EscapeChar(c) + t) == Prepend(c, ParseStringBody(t))
  {
    var e := EscapeChar(c);
    if |e| == 1 {
      PlainStep(c, t);
    } else if |e| == 2 {
      ShortEscapeStep(c, t);
    } else {
      UnicodeEscapeStep(c, t);
    }
  }

  lemma PlainStep(c: char, t: string)
    requires EscapeChar(c) == [c]
    ensures ParseStringBody([c] + t) == Prepend(c, ParseStringBody(t))
  {
    var s := [c] + t;
    assert s[0] == c && s[1..] == t;
    assert c != '"' && c != '\\' && c as int >= 0x20;
  }

  lemma ShortEscapeStep(c: char, t: string)
    requires |EscapeChar(c)| == 2
    ensures ParseStringBody(EscapeChar(c) + t) == Prepend(c, ParseStringBody(t))
  {
    var e := EscapeChar(c);
    var s := e + t;
    assert s[0] == '\\' && s[1] == e[1];
    assert Unescape(s) == Some((c, 2));
    assert s[2..] == t;
  }

  lemma UnicodeEscapeStep(c: char, t: string)
    requires |EscapeChar(c)| > 2
    ensures ParseStringBody(EscapeChar(c) + t) == Prepend(c, ParseStringBody(t))
  {
    var n := c as int;
    var e := EscapeChar(c);
    assert n < 0x20;
    assert e == "\\u00" + [HexDigit(n / 16), HexDigit(n % 16)];
    var s := e + t;
    assert s[0] == '\\' && s[1] == 'u';
    assert s[2..6] == ['0', '0', HexDigit(n / 16), HexDigit(n % 16)];
    assert Hex4(s[2..6]) == Some(n);
    assert (n as char) == c;
    assert Unescape(s) == Some((c, 6));
    assert s[6..] == t;
  }

  /** The escaped body followed by the closing quote reads back as the string. */
  lemma {:induction false} BodyRoundTrip(x: string, rest: string)
    ensures ParseStringBody(EscapeBody(x) + "\"" + rest) == Some((x, rest))
    decreases |x|
  {
    if x == [] {
      assert EscapeBody(x) + "\"" + rest == "\"" + rest;
    } else {
      var t := EscapeBody(x[1..]) + "\"" + rest;
      assert EscapeBody(x) + "\"" + rest == EscapeChar(x[0]) + t;
      EscapeCharStep(x[0], t);
      BodyRoundTrip(x[1..], rest);
      assert [x[0]] + x[1..] == x;
    }
  }

  /** A string literal followed by anything reads back as its string. */
  lemma QuoteThen(x: string, rest: string)
    ensures ParseString(Quote(x) + rest) == Some((x, rest))
  {
    assert (Quote(x) + rest)[1..] == EscapeBody(x) + "\"" + rest;
    BodyRoundTrip(x, rest);
  }

  /** Decoding the literal of `x` gives `x`: the string-literal encoding is
      lossless, whatever quotes, backslashes or control characters `x` holds. */
  lemma LiteralRoundTrip(x: string)
    ensures DecodeLiteral(Quote(x)) == Some(x)
  {
    QuoteThen(x, []);
    assert Quote(x) + [] == Quote(x);
  }

  /** No control character appears raw in an escaped body, so a literal
      never spans lines however many newlines `x` holds. */
  lemma {:induction false} EscapeBodyPrintable(x: string)
    ensures forall i :: 0 <= i < |EscapeBody(x)| ==> EscapeBody(x)[i] as int >= 0x20
    decreases |x|
  {
    if x != [] {
      EscapeBodyPrintable(x[1..]);
      var e := EscapeChar(x[0]);
      assert forall i :: 0 <= i < |e| ==> e[i] as int >= 0x20;
      assert EscapeBody(x) == e + EscapeBody(x[1..]);
    }
  }

  // ---------------------------------------------------------------------------
  // Serialisation (serde_json's compact writer)
  // ---------------------------------------------------------------------------

  /** An integer in decimal, with a minus sign when negative. */
  function IntToString(n: int): (r: string)
    ensures r != [] && (r[0] == '-' || IsDigit(r[0]))
  {
    if n < 0 then "-" + NatToString(-n) else NatToString(n)
  }

  /** The characters a value's text can begin with. */
  predicate StartsValue(c: char)
  {
    c == 'n' || c == 't' || c == 'f' || c == '"' || c == '-' || IsDigit(c) || c == '[' || c == '{'
  }

  /** `serde_json::to_string`: the compact text of a value, with no
      whitespace between tokens. */
  function Serialize(v: Json): (r: string)
    ensures r != [] && StartsValue(r[0])
    decreases v, 1, 0
  {
    match v
    case Null => "null"
    case Bool(b) => if b then "true" else "false"
    case Number(n) => IntToString(n)
    case String(s) => Quote(s)
    case Array(xs) => if xs == [] then "[]" else "[" + SerializeElems(v, 0) + "]"
    case Object(ms) => if ms == [] then "{}" else "{" + SerializeMembers(v, 0) + "}"
  }

  /** The elements of an array from index `k` on, separated by commas. */
  function SerializeElems(v: Json, k: nat): (r: string)
    requires v.Array? && k < |v.elems|
    ensures r != [] && r[0] != ']'
    decreases v, 0, |v.elems| - k
  {
    Serialize(v.elems[k]) + if k + 1 == |v.elems| then "" else "," + SerializeElems(v, k + 1)
  }

  /** The members of an object from index `k` on, each `"key":value`,
      separated by commas. */
  function SerializeMembers(v: Json, k: nat): (r: string)
    requires v.Object? && k < |v.members|
    ensures r != [] && r[0] == '"'
    decreases v, 0, |v.members| - k
  {
    assert v.members[k] in v.members;
    Quote(v.members[k].0) + ":" + Serialize(v.members[k].1)
      + if k + 1 == |v.members| then "" else "," + SerializeMembers(v, k + 1)
  }

  // ---------------------------------------------------------------------------
  // Reading the compact text back
  // ---------------------------------------------------------------------------

  /** The number of decimal digits at the head of `s`. */
  function DigitRun(s: string): (k: nat)
    ensures k <= |s| && AllDigits(s[..k])
    ensures k < |s| ==> !IsDigit(s[k])
    decreases |s|
  {
    if s != [] && IsDigit(s[0]) then
      var k := 1 + DigitRun(s[1..]);
      assert forall i :: 1 <= i < k ==> s[..k][i] == s[1..][..k - 1][i - 1];
      k
    else 0
  }

  /** A run of digits followed by a non-digit is read up to its end. */
  lemma DigitRunOf(d: string, rest: string)
    requires AllDigits(d)
    requires rest == [] || !IsDigit(rest[0])
    ensures DigitRun(d + rest) == |d|
    decreases |d|
  {
    if d != [] {
      assert (d + rest)[0] == d[0];
      assert (d + rest)[1..] == d[1..] + rest;
      DigitRunOf(d[1..], rest);
    }
  }

  /** Reads an unsigned run of digits. */
  function ParseDigits(s: string): (r: Option<(nat, string)>)
    ensures r.Some? ==> |r.value.1| < |s|
  {
    var k := DigitRun(s);
    if k == 0 then None else Some((DecimalValue(s[..k]), s[k..]))
  }

  /** Reads one value at the head of `s`: the value and what follows it. */
  function ParseValue(s: string): (r: Option<(Json, string)>)
    ensures r.Some? ==> |r.value.1| < |s|
    decreases |s|, 2
  {
    if s == [] then None
    else if s[0] == '[' then ParseArray(s)
    else if s[0] == '{' then ParseObject(s)
    else ParseScalar(s)
  }

  /** Reads `null`, `true`, `false`, a string or an integer. */
  function ParseScalar(s: string): (r: Option<(Json, string)>)
    requires s != []
    ensures r.Some? ==> |r.value.1| < |s|
  {
    if s[0] == 'n' then
      if |s| >= 4 && s[..4] == "null" then Some((Null, s[4..])) else None
    else if s[0] == 't' then
      if |s| >= 4 && s[..4] == "true" then Some((Bool(true), s[4..])) else None
    else if s[0] == 'f' then
      if |s| >= 5 && s[..5] == "false" then Some((Bool(false), s[5..])) else None
    else if s[0] == '"' then
      match ParseString(s)
      case None => None
      case Some((x, rest)) => Some((String(x), rest))
    else if s[0] == '-' then
      match ParseDigits(s[1..])
      case None => None
      case Some((d, rest)) => Some((Number(0 - d), rest))
    else
      match ParseDigits(s)
      case None => None
      case Some((d, rest)) => Some((Number(d), rest))
  }

  /** Reads an array, `[]` or `[` followed by its elements. */
  function ParseArray(s: string): (r: Option<(Json, string)>)
    requires s != [] && s[0] == '['
    ensures r.Some? ==> |r.value.1| < |s|
    decreases |s|, 1
  {
    if |s| >= 2 && s[1] == ']' then Some((Array([]), s[2..]))
    else
      match ParseElems(s[1..])
      case None => None
      case Some((xs, rest)) => Some((Array(xs), rest))
  }

  /** Reads an object, `{}` or `{` followed by its members. */
  function ParseObject(s: string): (r: Option<(Json, string)>)
    requires s != [] && s[0] == '{'
    ensures r.Some? ==> |r.value.1| < |s|
    decreases |s|, 1
  {
    if |s| >= 2 && s[1] == '}' then Some((Object([]), s[2..]))
    else
      match ParseMembers(s[1..])
      case None => None
      case Some((ms, rest)) => Some((Object(ms), rest))
  }

  /** Reads `value (, value)* ]`, the rest of a non-empty array. */
  function ParseElems(s: string): (r: Option<(seq<Json>, string)>)
    ensures r.Some? ==> |r.value.1| < |s|
    decreases |s|, 3
  {
    match ParseValue(s)
    case None => None
    case Some((x, rest)) =>
      if rest == [] then None
      else if rest[0] == ']' then Some(([x], rest[1..]))
      else if rest[0] != ',' then None
      else
        match ParseElems(rest[1..])
        case None => None
        case Some((xs, rest')) => Some(([x] + xs, rest'))
  }

  /** Reads `"key":value (, "key":value)* }`, the rest of a non-empty object. */
  function ParseMembers(s: string): (r: Option<(seq<(string, Json)>, string)>)
    ensures r.Some? ==> |r.value.1| < |s|
    decreases |s|, 3
  {
    match ParseString(s)
    case None => None
    case Some((key, rest)) =>
      if rest == [] || rest[0] != ':' then None
      else
        match ParseValue(rest[1..])
        case None => None
        case Some((x, rest')) =>
          if rest' == [] then None
          else if rest'[0] == '}' then Some(([(key, x)], rest'[1..]))
          else if rest'[0] != ',' then None
          else
            match ParseMembers(rest'[1..])
            case None => None
            case Some((ms, rest'')) => Some(([(key, x)] + ms, rest''))
  }

  /** Reads text that is exactly one value. */
  function ParseJson(s: string): Option<Json>
  {
    match ParseValue(s)
    case Some((v, rest)) => if rest == [] then Some(v) else None
    case None => None
  }

  // ---------------------------------------------------------------------------
  // Round trip
  // ---------------------------------------------------------------------------

  /** The serialisation of `v`, followed by anything that does not continue a
      number, reads back as `v` followed by that text. */
  lemma {:induction false} ValueRoundTrip(v: Json, rest: string)
    requires rest == [] || !IsDigit(rest[0])
    ensures ParseValue(Serialize(v) + rest) == Some((v, rest))
    decreases v, 1, 0
  {
    var s := Serialize(v) + rest;
    match v
    case Array(xs) =>
      assert s[0] == '[';
      if xs != [] { ElemsRoundTrip(v, 0, rest); }
      ArrayRoundTrip(v, rest);
    case Object(ms) =>
      assert s[0] == '{';
      if ms != [] { MembersRoundTrip(v, 0, rest); }
      ObjectRoundTrip(v, rest);
    case _ =>
      ScalarRoundTrip(v, rest);
      assert s[0] == Serialize(v)[0];
  }

  lemma ScalarRoundTrip(v: Json, rest: string)
    requires !v.Array? && !v.Object?
    requires rest == [] || !IsDigit(rest[0])
    ensures ParseScalar(Serialize(v) + rest) == Some((v, rest))
  {
    var s := Serialize(v) + rest;
    match v
    case Null => assert s[..4] == "null" && s[4..] == rest;
    case Bool(b) =>
      if b { assert s[..4] == "true" && s[4..] == rest; }
      else { assert s[..5] == "false" && s[5..] == rest; }
    case Number(n) => NumberRoundTrip(n, rest);
    case String(x) => QuoteThen(x, rest);
  }

  lemma NumberRoundTrip(n: int, rest: string)
    requires rest == [] || !IsDigit(rest[0])
    ensures ParseScalar(IntToString(n) + rest) == Some((Number(n), rest))
  {
    var m: nat := if n < 0 then -n else n;
    var d := NatToString(m);
    DigitsThen(d, rest);
    var s := IntToString(n) + rest;
    assert IsDigit(d[0]);
    if n < 0 {
      assert s == "-" + (d + rest);
      assert s[0] == '-' && s[1..] == d + rest;
    } else {
      assert s == d + rest;
      assert s[0] == d[0];
    }
  }

  /** A numeral followed by a non-digit reads as its number. */
  lemma DigitsThen(d: string, rest: string)
    requires d != [] && AllDigits(d)
    requires rest == [] || !IsDigit(rest[0])
    ensures ParseDigits(d + rest) == Some((DecimalValue(d), rest))
  {
    DigitRunOf(d, rest);
    assert (d + rest)[..|d|] == d && (d + rest)[|d|..] == rest;
  }

  lemma ArrayRoundTrip(v: Json, rest: string)
    requires v.Array?
    requires v.elems != [] ==> ParseElems(SerializeElems(v, 0) + "]" + rest) == Some((v.elems[0..], rest))
    ensures ParseArray(Serialize(v) + rest) == Some((v, rest))
  {
    var s := Serialize(v) + rest;
    if v.elems == [] {
      assert s[2..] == rest;
    } else {
      var e := SerializeElems(v, 0);
      assert s == "[" + (e + "]" + rest);
      assert s[1] == e[0];
      assert s[1..] == e + "]" + rest;
      assert v.elems[0..] == v.elems;
    }
  }

  lemma ObjectRoundTrip(v: Json, rest: string)
    requires v.Object?
    requires v.members != [] ==> ParseMembers(SerializeMembers(v, 0) + "}" + rest) == Some((v.members[0..], rest))
    ensures ParseObject(Serialize(v) + rest) == Some((v, rest))
  {
    var s := Serialize(v) + rest;
    if v.members == [] {
      assert s[2..] == rest;
    } else {
      var m := SerializeMembers(v, 0);
      assert s == "{" + (m + "}" + rest);
      assert s[1] == m[0];
      assert s[1..] == m + "}" + rest;
      assert v.members[0..] == v.members;
    }
  }

  lemma {:induction false} ElemsRoundTrip(v: Json, k: nat, rest: string)
    requires v.Array? && k < |v.elems|
    ensures ParseElems(SerializeElems(v, k) + "]" + rest) == Some((v.elems[k..], rest))
    decreases v, 0, |v.elems| - k
  {
    var x := v.elems[k];
    var after := ElemsText(v, k, rest);
    ValueRoundTrip(x, after);
    ElemStep(Serialize(x) + after, x, after);
    SplitHead(v.elems, k);
    if k + 1 < |v.elems| {
      ElemsRoundTrip(v, k + 1, rest);
    }
  }

  /** One element read off the front, then the end of the array or a comma
      and more elements. */
  lemma ElemStep(s: string, x: Json, after: string)
    requires ParseValue(s) == Some((x, after))
    requires after != [] && (after[0] == ']' || after[0] == ',')
    ensures ParseElems(s) ==
      if after[0] == ']' then Some(([x], after[1..]))
      else match ParseElems(after[1..])
        case None => None
        case Some((xs, rest)) => Some(([x] + xs, rest))
  {
  }

  /** The text of the elements from `k` on, and of what closes the array,
      split after element `k`. */
  lemma ElemsText(v: Json, k: nat, rest: string) returns (after: string)
    requires v.Array? && k < |v.elems|
    ensures SerializeElems(v, k) + "]" + rest == Serialize(v.elems[k]) + after
    ensures after != []
    ensures k + 1 == |v.elems| ==> after[0] == ']' && after[1..] == rest
    ensures k + 1 < |v.elems| ==> after[0] == ',' && after[1..] == SerializeElems(v, k + 1) + "]" + rest
  {
    var tail := if k + 1 == |v.elems| then "" else "," + SerializeElems(v, k + 1);
    after := tail + "]" + rest;
    assert SerializeElems(v, k) == Serialize(v.elems[k]) + tail;
  }

  lemma {:induction false} MembersRoundTrip(v: Json, k: nat, rest: string)
    requires v.Object? && k < |v.members|
    ensures ParseMembers(SerializeMembers(v, k) + "}" + rest) == Some((v.members[k..], rest))
    decreases v, 0, |v.members| - k
  {
    var key, x := v.members[k].0, v.members[k].1;
    assert v.members[k] in v.members;
    var afterKey, after := MembersText(v, k, rest);
    QuoteThen(key, afterKey);
    ValueRoundTrip(x, after);
    MemberStep(Quote(key) + afterKey, key, afterKey, x, after);
    SplitHead(v.members, k);
    if k + 1 < |v.members| {
      MembersRoundTrip(v, k + 1, rest);
    }
  }

  /** A suffix of a sequence is its first element followed by the rest. */
  lemma SplitHead<T>(xs: seq<T>, k: nat)
    requires k < |xs|
    ensures xs[k..] == [xs[k]] + xs[k + 1..]
    ensures k + 1 == |xs| ==> xs[k..] == [xs[k]]
  {
    assert xs[k..] == [xs[k]] + xs[k + 1..];
  }

  /** One member read off the front, then the end of the object or a comma
      and more members. */
  lemma MemberStep(s: string, key: string, afterKey: string, x: Json, after: string)
    requires ParseString(s) == Some((key, afterKey))
    requires afterKey != [] && afterKey[0] == ':'
    requires ParseValue(afterKey[1..]) == Some((x, after))
    requires after != [] && (after[0] == '}' || after[0] == ',')
    ensures ParseMembers(s) ==
      if after[0] == '}' then Some(([(key, x)], after[1..]))
      else match ParseMembers(after[1..])
        case None => None
        case Some((ms, rest)) => Some(([(key, x)] + ms, rest))
  {
  }

  /** The text of the members from `k` on, and of what closes the object,
      split after the key of member `k` and after its value. */
  lemma MembersText(v: Json, k: nat, rest: string) returns (afterKey: string, after: string)
    requires v.Object? && k < |v.members|
    ensures SerializeMembers(v, k) + "}" + rest == Quote(v.members[k].0) + afterKey
    ensures afterKey != [] && afterKey[0] == ':' && afterKey[1..] == Serialize(v.members[k].1) + after
    ensures after != []
    ensures k + 1 == |v.members| ==> after[0] == '}' && after[1..] == rest
    ensures k + 1 < |v.members| ==> after[0] == ',' && after[1..] == SerializeMembers(v, k + 1) + "}" + rest
  {
    var q, x := Quote(v.members[k].0), Serialize(v.members[k].1);
    if k + 1 < |v.members| {
      var m := SerializeMembers(v, k + 1);
      assert SerializeMembers(v, k) == q + ":" + x + ("," + m);
      afterKey, after := SplitMember(q, x, "," + m, rest);
      LeadChar(',', m, rest);
    } else {
      assert SerializeMembers(v, k) == q + ":" + x + "";
      afterKey, after := SplitMember(q, x, "", rest);
      LeadChar('}', rest, "");
      assert "" + "}" + rest == "}" + rest + "";
    }
  }

  /** A member's text `q:x` followed by `tail}rest`, split after the key and
      after the value. */
  lemma SplitMember(q: string, x: string, tail: string, rest: string) returns (afterKey: string, after: string)
    ensures after == tail + "}" + rest
    ensures q + ":" + x + tail + "}" + rest == q + afterKey
    ensures afterKey != [] && afterKey[0] == ':' && afterKey[1..] == x + after
  {
    after := tail + "}" + rest;
    afterKey := ":" + (x + after);
    assert afterKey[1..] == x + after;
  }

  /** The first character of `[c] + m + rest` is `c` and the others are `m + rest`. */
  lemma LeadChar(c: char, m: string, rest: string)
    ensures ([c] + m + rest)[0] == c && ([c] + m + rest)[1..] == m + rest
  {
    assert ([c] + m + rest)[1..] == m + rest;
  }

  /** Reading the serialisation of any value gives that value back. */
  lemma SerializeRoundTrip(v: Json)
    ensures ParseJson(Serialize(v)) == Some(v)
  {
    ValueRoundTrip(v, []);
    assert Serialize(v) + [] == Serialize(v);
  }
}
