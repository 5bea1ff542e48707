/** A list of strings stored as JSON text (section 5 of RFC 8259 for arrays,
    section 7 for strings): the encoding behind JournalItem.Tags and
    JournalItem.SecondaryMoods.  Serialize is a canonical encoder of this
    model; Deserialize accepts what System.Text.Json accepts for a
    List<string>: `null`, or an array whose elements are strings or `null`,
    with JSON white space between tokens. */
module JsonList {
  import opened Wrappers
  import opened Text

  /** A parsed value and the text after it. */
  datatype Parsed<T> = Parsed(value: T, rest: string)

  /** The `ws` rule of section 2 of RFC 8259. */
  predicate IsJsonWhiteSpace(c: char) {
    c == ' ' || c == '\t' || c == '\n' || c == '\r'
  }

  function SkipWhiteSpace(s: string): (r: string)
    ensures |r| <= |s| && r == s[|s| - |r|..]
    ensures r == [] || !IsJsonWhiteSpace(r[0])
    ensures s != [] && !IsJsonWhiteSpace(s[0]) ==> r == s
  {
    if s != [] && IsJsonWhiteSpace(s[0]) then SkipWhiteSpace(s[1..]) else s
  }

  // ---------------------------------------------------------------------
  // Hexadecimal digits of \uXXXX escapes

  function HexDigit(n: nat): (c: char)
    requires n < 16
  {
    if n < 10 then ('0' as int + n) as char else ('A' as int + n - 10) as char
  }

  /** The value of a hexadecimal digit, in either case. */
  function HexValue(c: char): (r: Option<nat>)
    ensures r.Some? ==> r.value < 16
  {
    if '0' <= c <= '9' then Some(c as int - '0' as int)
    else if 'A' <= c <= 'F' then Some(c as int - 'A' as int + 10)
    else if 'a' <= c <= 'f' then Some(c as int - 'a' as int + 10)
    else None
  }

  lemma HexDigitValue(n: nat)
    requires n < 16
    ensures HexValue(HexDigit(n)) == Some(n)
  {
  }

  /** Four hexadecimal digits, most significant first. */
  function Hex4(n: nat): (r: string)
    requires n < 0x10000
    ensures |r| == 4
  {
    [HexDigit(n / 16 / 16 / 16), HexDigit(n / 16 / 16 % 16), HexDigit(n / 16 % 16), HexDigit(n % 16)]
  }

  function Hex4Value(s: string): (r: Option<nat>)
    requires |s| == 4
    ensures r.Some? ==> r.value < 0x10000
  {
    match (HexValue(s[0]), HexValue(s[1]), HexValue(s[2]), HexValue(s[3]))
    case (Some(a), Some(b), Some(c), Some(d)) => Some(a * 0x1000 + b * 0x100 + c * 0x10 + d)
    case _ => None
  }

  lemma Hex4RoundTrip(n: nat)
    requires n < 0x10000
    ensures Hex4Value(Hex4(n)) == Some(n)
  {
    var q1 := n / 16;
    var q2 := q1 / 16;
    var q3 := q2 / 16;
    assert n == q1 * 16 + n % 16 && q1 == q2 * 16 + q1 % 16 && q2 == q3 * 16 + q2 % 16;
    assert q3 < 16;
    HexDigitValue(q3);
    HexDigitValue(q2 % 16);
    HexDigitValue(q1 % 16);
    HexDigitValue(n % 16);
  }

  // ---------------------------------------------------------------------
  // Encoding

  const Backspace: char := 8 as char
  const FormFeed: char := 12 as char

  /** The letter of the two-character escape of `c` (section 7 of RFC 8259),
      when `c` has one. */
  function ShortEscapeOf(c: char): Option<char> {
    if c == '"' then Some('"')
    else if c == '\\' then Some('\\')
    else if c == Backspace then Some('b')
    else if c == FormFeed then Some('f')
    else if c == '\n' then Some('n')
    else if c == '\r' then Some('r')
    else if c == '\t' then Some('t')
    else None
  }

  /** The escape of one character inside a JSON string: the quotation mark,
      the reverse solidus and the control characters U+0000..U+001F must be
      escaped (section 7 of RFC 8259); every other character stands for itself. */
  function EscapeChar(c: char): (r: string)
    ensures r != [] && (r[0] == '\\' <==> (c == '"' || c == '\\' || c as int < 0x20))
  {
    if ShortEscapeOf(c).Some? then ['\\', ShortEscapeOf(c).value]
    else if c as int < 0x20 then "\\u" + Hex4(c as int)
    else [c]
  }

  function EscapeString(s: string): string {
    if s == [] then [] else EscapeChar(s[0]) + EscapeString(s[1..])
  }

  /** One array element: a quoted string, or the literal `null`. */
  function EncodeValue(v: NullableString): (r: string)
    ensures r != [] && (r[0] == '"' || r[0] == 'n')
  {
    match v
    case Null => "null"
    case Str(s) => "\"" + EscapeString(s) + "\""
  }

  /** The encodings of the elements, in order. */
  function EncodeValues(xs: seq<NullableString>): (r: seq<string>)
    ensures |r| == |xs|
  {
    seq(|xs|, i requires 0 <= i < |xs| => EncodeValue(xs[i]))
  }

  /** JsonSerializer.Serialize of a List<string>; None is a null list, which
      serializes to `null`. */
  function Serialize(xs: Option<seq<NullableString>>): (r: string)
    ensures r != [] && !IsJsonWhiteSpace(r[0]) && !IsWhiteSpace(r[0])
    ensures xs == Some([]) ==> r == "[]"
  {
    match xs
    case None => "null"
    case Some(items) => "[" + Join(",", EncodeValues(items)) + "]"
  }

  // ---------------------------------------------------------------------
  // Decoding

  /** The character a two-character escape `\e` stands for. */
  function ShortEscape(e: char): Option<char> {
    if e == '"' then Some('"')
    else if e == '\\' then Some('\\')
    else if e == '/' then Some('/')
    else if e == 'b' then Some(Backspace)
    else if e == 'f' then Some(FormFeed)
    else if e == 'n' then Some('\n')
    else if e == 'r' then Some('\r')
    else if e == 't' then Some('\t')
    else None
  }

  /** The escape sequence after a reverse solidus (section 7 of RFC 8259). */
  function ParseEscape(s: string): (r: Result<Parsed<char>>)
    ensures r.Success? ==> |r.value.rest| < |s|
  {
    if s == [] then Failure(JsonException)
    else if s[0] == 'u' then ParseUnicode(s[1..])
    else if ShortEscape(s[0]).Some? then Success(Parsed(ShortEscape(s[0]).value, s[1..]))
    else Failure(JsonException)
  }

  /** The `XXXX` of a `\uXXXX` escape.  One naming a high surrogate must be
      followed by a `\uXXXX` naming a low surrogate, and the pair stands for
      one character beyond U+FFFF; a lone surrogate is rejected. */
  function ParseUnicode(s: string): (r: Result<Parsed<char>>)
    ensures r.Success? ==> |r.value.rest| < |s|
  {
    if |s| >= 4 && Hex4Value(s[..4]).Some? then
      var high := Hex4Value(s[..4]).value;
      if 0xD800 <= high < 0xDC00 then
        if |s| >= 10 && s[4] == '\\' && s[5] == 'u' && Hex4Value(s[6..10]).Some?
           && 0xDC00 <= Hex4Value(s[6..10]).value < 0xE000
        then
          var low := Hex4Value(s[6..10]).value;
          Success(Parsed(((high - 0xD800) * 0x400 + (low - 0xDC00) + 0x10000) as char, s[10..]))
        else Failure(JsonException)
      else if 0xDC00 <= high < 0xE000 then Failure(JsonException)
      else Success(Parsed(high as char, s[4..]))
    else Failure(JsonException)
  }

  /** The characters of a string up to its closing quotation mark; `s`
      starts just after the opening one.  Unescaped control characters are
      rejected. */
  function ParseStringBody(s: string): (r: Result<Parsed<string>>)
    ensures r.Success? ==> |r.value.rest| < |s|
    decreases |s|
  {
    if s == [] then Failure(JsonException)
    else if s[0] == '"' then Success(Parsed([], s[1..]))
    else if s[0] == '\\' then
      match ParseEscape(s[1..])
      case Failure(e) => Failure(e)
      case Success(Parsed(c, rest)) =>
        match ParseStringBody(rest)
        case Failure(e) => Failure(e)
        case Success(Parsed(t, rest')) => Success(Parsed([c] + t, rest'))
    else if s[0] as int < 0x20 then Failure(JsonException)
    else
      match ParseStringBody(s[1..])
      case Failure(e) => Failure(e)
      case Success(Parsed(t, rest)) => Success(Parsed([s[0]] + t, rest))
  }

  /** An array element: a string or `null`; any other JSON value cannot be
      converted to a string. */
  function ParseValue(s: string): (r: Result<Parsed<NullableString>>)
    ensures r.Success? ==> |r.value.rest| < |s|
  {
    if StartsWith(s, "null") then Success(Parsed(Null, s[4..]))
    else if s != [] && s[0] == '"' then
      match ParseStringBody(s[1..])
      case Failure(e) => Failure(e)
      case Success(Parsed(t, rest)) => Success(Parsed(Str(t), rest))
    else Failure(JsonException)
  }

  /** A reader of one array element: on success, the element and the text
      after it, which is shorter than the text it read from. */
  type Reader<V> = f: string -> Result<Parsed<V>> | forall t :: f(t).Success? ==> |f(t).value.rest| < |t|
    witness (t: string) => Failure(JsonException)

  /** `value ws *( "," ws value ws ) "]"`, starting at the first value, each
      value read by `value`. */
  function ParseElements<V>(s: string, value: Reader<V>): Result<Parsed<seq<V>>>
    decreases |s|
  {
    var head := value(s);
    if head.Failure? then Failure(head.error)
    else
      var t := SkipWhiteSpace(head.value.rest);
      if t != [] && t[0] == ']' then Success(Parsed([head.value.value], t[1..]))
      else if t != [] && t[0] == ',' then
        var tail := ParseElements(SkipWhiteSpace(t[1..]), value);
        if tail.Failure? then Failure(tail.error)
        else Success(Parsed([head.value.value] + tail.value.value, tail.value.rest))
      else Failure(JsonException)
  }

  /** An array; `s` starts just after the opening bracket. */
  function ParseArray<V>(s: string, value: Reader<V>): Result<Parsed<seq<V>>>
  {
    var t := SkipWhiteSpace(s);
    if t != [] && t[0] == ']' then Success(Parsed([], t[1..])) else ParseElements(t, value)
  }

  /** JsonSerializer.Deserialize<List<string>>(text): None for the JSON
      literal `null`; a JsonException for anything that is not one JSON value,
      optionally surrounded by white space, that is `null` or an array of
      strings and nulls. */
  function Deserialize(text: string): Result<Option<seq<NullableString>>> {
    var t := SkipWhiteSpace(text);
    if StartsWith(t, "null") then
      if SkipWhiteSpace(t[4..]) == [] then Success(None) else Failure(JsonException)
    else if t != [] && t[0] == '[' then
      match ParseArray(t[1..], ParseValue)
      case Failure(e) => Failure(e)
      case Success(Parsed(xs, rest)) =>
        if SkipWhiteSpace(rest) == [] then Success(Some(xs)) else Failure(JsonException)
    else Failure(JsonException)
  }

  // ---------------------------------------------------------------------
  // Round trip

  /** Reading an escaped character back gives that character. */
  lemma EscapeCharRoundTrip(c: char, rest: string)
    ensures var s := EscapeChar(c) + rest;
            s != [] && (if s[0] == '\\' then ParseEscape(s[1..]) == Success(Parsed(c, rest))
                        else s[0] == c && s[1..] == rest && !(c as int < 0x20) && c != '"')
  {
    if ShortEscapeOf(c).Some? {
      ShortEscapeRoundTrip(c, rest);
    } else if c as int < 0x20 {
      UnicodeEscapeRoundTrip(c, rest);
    }
  }

  /** A two-character escape reads back as its character. */
  lemma ShortEscapeRoundTrip(c: char, rest: string)
    requires ShortEscapeOf(c).Some?
    ensures var s := EscapeChar(c) + rest;
            s != [] && s[0] == '\\' && ParseEscape(s[1..]) == Success(Parsed(c, rest))
  {
    var e := ShortEscapeOf(c).value;
    var s := EscapeChar(c) + rest;
    assert s[1..] == [e] + rest;
    assert ShortEscape(e) == Some(c) && e != 'u';
  }

  /** A control character without a two-character escape reads back from
      its `\uXXXX` escape. */
  lemma UnicodeEscapeRoundTrip(c: char, rest: string)
    requires ShortEscapeOf(c).None? && c as int < 0x20
    ensures var s := EscapeChar(c) + rest;
            s != [] && s[0] == '\\' && ParseEscape(s[1..]) == Success(Parsed(c, rest))
  {
    var h := Hex4(c as int);
    assert EscapeChar(c) == "\\u" + h;
    UnicodeEscapeSlices(h, rest);
    HexEscapeRoundTrip(c, rest);
  }

  lemma UnicodeEscapeSlices(h: string, rest: string)
    ensures var s := "\\u" + h + rest;
            s != [] && s[0] == '\\' && s[1..] != [] && s[1..][0] == 'u' && s[1..][1..] == h + rest
  {
    var s := "\\u" + h + rest;
    assert s[1..] == "u" + h + rest;
  }

  /** Four hexadecimal digits naming a control character read back as it. */
  lemma HexEscapeRoundTrip(c: char, rest: string)
    requires c as int < 0x20
    ensures ParseUnicode(Hex4(c as int) + rest) == Success(Parsed(c, rest))
  {
    var n := c as int;
    var h := Hex4(n);
    Hex4RoundTrip(n);
    assert (h + rest)[..4] == h && (h + rest)[4..] == rest;
  }

  lemma {:induction false} StringRoundTrip(s: string, rest: string)
    ensures ParseStringBody(EscapeString(s) + "\"" + rest) == Success(Parsed(s, rest))
  {
    if s == [] {
      assert EscapeString(s) + "\"" + rest == "\"" + rest;
    } else {
      var c, more := s[0], s[1..];
      var tail := EscapeString(more) + "\"" + rest;
      var whole := EscapeChar(c) + tail;
      EscapeStringUnfold(s, rest, tail, whole);
      EscapeCharRoundTrip(c, tail);
      StringRoundTrip(more, rest);
      StringBodyStep(whole, c, tail, more, rest);
      assert [c] + more == s;
    }
  }

  lemma EscapeStringUnfold(s: string, rest: string, tail: string, whole: string)
    requires s != [] && tail == EscapeString(s[1..]) + "\"" + rest && whole == EscapeChar(s[0]) + tail
    ensures EscapeString(s) + "\"" + rest == whole
  {
  }

  /** One unfolding of ParseStringBody at a character or an escape. */
  lemma StringBodyStep(whole: string, c: char, tail: string, t: string, rest: string)
    requires whole != []
    requires if whole[0] == '\\' then ParseEscape(whole[1..]) == Success(Parsed(c, tail))
             else whole[0] == c && whole[1..] == tail && !(c as int < 0x20) && c != '"'
    requires ParseStringBody(tail) == Success(Parsed(t, rest))
    ensures ParseStringBody(whole) == Success(Parsed([c] + t, rest))
  {
  }

  /** One unfolding of ParseValue for a quoted string. */
  lemma ParseQuoted(s: string, body: string, t: string, rest: string)
    requires s == "\"" + body
    requires ParseStringBody(body) == Success(Parsed(t, rest))
    ensures ParseValue(s) == Success(Parsed(Str(t), rest))
  {
    assert s[0] == '"' && s[1..] == body;
  }

  lemma ValueRoundTrip(v: NullableString, rest: string)
    ensures ParseValue(EncodeValue(v) + rest) == Success(Parsed(v, rest))
  {
    var s := EncodeValue(v) + rest;
    match v
    case Null =>
      assert s[..4] == "null" && s[4..] == rest;
    case Str(t) =>
      var body := EscapeString(t) + "\"" + rest;
      assert s == "\"" + body;
      StringRoundTrip(t, rest);
      ParseQuoted(s, body, t, rest);
  }

  /** One unfolding of ParseElements after a value followed by `]`. */
  lemma ParseElementsLast<V>(s: string, value: Reader<V>, v: V, after: string)
    requires value(s) == Success(Parsed(v, after))
    requires after != [] && after[0] == ']'
    ensures ParseElements(s, value) == Success(Parsed([v], after[1..]))
  {
    assert SkipWhiteSpace(after) == after;
  }

  /** One unfolding of ParseElements after a first value followed by `,`
      and by further elements that do not start with white space. */
  lemma ParseElementsMore<V>(s: string, value: Reader<V>, vals: seq<V>, tail: string, rest: string)
    requires vals != [] && value(s) == Success(Parsed(vals[0], "," + tail))
    requires tail != [] && !IsJsonWhiteSpace(tail[0])
    requires ParseElements(tail, value) == Success(Parsed(vals[1..], rest))
    ensures ParseElements(s, value) == Success(Parsed(vals, rest))
  {
    var after := "," + tail;
    assert after[0] == ',' && after[1..] == tail;
    assert [vals[0]] + vals[1..] == vals;
  }

  /** Text starting with a character other than JSON white space is left
      alone by SkipWhiteSpace. */
  lemma SkipNothing(c: char, t: string)
    requires !IsJsonWhiteSpace(c)
    ensures SkipWhiteSpace([c] + t) == [c] + t && ([c] + t)[1..] == t
  {
  }

  /** Strings each of which, whatever follows it, `value` reads back as the
      corresponding element, and each of which starts a value. */
  ghost predicate ReadsBack<V>(parts: seq<string>, vals: seq<V>, value: Reader<V>) {
    && |parts| == |vals|
    && (forall i :: 0 <= i < |parts| ==> parts[i] != [] && (parts[i][0] == '"' || parts[i][0] == 'n'))
    && (forall i, t :: 0 <= i < |parts| ==> value(parts[i] + t) == Success(Parsed(vals[i], t)))
  }

  lemma ReadsBackTail<V>(parts: seq<string>, vals: seq<V>, value: Reader<V>)
    requires parts != [] && ReadsBack(parts, vals, value)
    ensures ReadsBack(parts[1..], vals[1..], value)
  {
    forall i, t | 0 <= i < |parts| - 1
      ensures value(parts[1..][i] + t) == Success(Parsed(vals[1..][i], t))
    {
      assert parts[1..][i] == parts[i + 1];
    }
  }

  /** How a joined list of two or more parts splits at its first comma. */
  lemma JoinSplit(parts: seq<string>, rest: string)
    requires |parts| >= 2
    ensures Join(",", parts) + "]" + rest == parts[0] + ("," + (Join(",", parts[1..]) + "]" + rest))
  {
    var more := Join(",", parts[1..]);
    assert Join(",", parts) == parts[0] + "," + more;
    ConcatAssoc(parts[0] + ",", more, "]" + rest);
    ConcatAssoc(parts[0], ",", more + ("]" + rest));
    ConcatAssoc(more, "]", rest);
  }

  lemma JoinStart(parts: seq<string>, rest: string)
    requires parts != [] && parts[0] != []
    ensures var t := Join(",", parts) + "]" + rest; t != [] && t[0] == parts[0][0]
  {
  }

  lemma JoinTailStart(parts: seq<string>, rest: string)
    requires |parts| >= 2 && parts[1] != [] && (parts[1][0] == '"' || parts[1][0] == 'n')
    ensures var tail := Join(",", parts[1..]) + "]" + rest; tail != [] && !IsJsonWhiteSpace(tail[0])
  {
    assert parts[1..][0] == parts[1];
    JoinStart(parts[1..], rest);
  }

  lemma ConcatAssoc(a: string, b: string, c: string)
    ensures a + b + c == a + (b + c)
  {
  }

  /** One part followed by `]`. */
  lemma JoinedLast<V>(parts: seq<string>, vals: seq<V>, value: Reader<V>, rest: string)
    requires |parts| == 1 && ReadsBack(parts, vals, value)
    ensures ParseElements(Join(",", parts) + "]" + rest, value) == Success(Parsed(vals, rest))
  {
    var after := "]" + rest;
    assert Join(",", parts) + "]" + rest == parts[0] + after;
    assert value(parts[0] + after) == Success(Parsed(vals[0], after));
    SkipNothing(']', rest);
    ParseElementsLast(parts[0] + after, value, vals[0], after);
    assert vals == [vals[0]];
  }

  /** What ReadsBack says about the first part. */
  lemma ReadsBackHead<V>(parts: seq<string>, vals: seq<V>, value: Reader<V>, t: string)
    requires parts != [] && ReadsBack(parts, vals, value)
    ensures parts[0] != [] && (parts[0][0] == '"' || parts[0][0] == 'n')
    ensures value(parts[0] + t) == Success(Parsed(vals[0], t))
  {
  }

  lemma {:induction false} JoinedRoundTrip<V>(parts: seq<string>, vals: seq<V>, value: Reader<V>, rest: string)
    requires parts != [] && ReadsBack(parts, vals, value)
    ensures ParseElements(Join(",", parts) + "]" + rest, value) == Success(Parsed(vals, rest))
  {
    if |parts| == 1 {
      JoinedLast(parts, vals, value, rest);
    } else {
      var ps, vs := parts[1..], vals[1..];
      var tail := Join(",", ps) + "]" + rest;
      ReadsBackTail(parts, vals, value);
      ReadsBackHead(ps, vs, value, []);
      ReadsBackHead(parts, vals, value, "," + tail);
      JoinSplit(parts, rest);
      JoinTailStart(parts, rest);
      JoinedRoundTrip(ps, vs, value, rest);
      ParseElementsMore(Join(",", parts) + "]" + rest, value, vals, tail, rest);
    }
  }

  /** The encoded elements read back as the elements. */
  lemma EncodedReadsBack(xs: seq<NullableString>)
    ensures ReadsBack(EncodeValues(xs), xs, ParseValue)
  {
    var parts := EncodeValues(xs);
    forall i, t | 0 <= i < |parts|
      ensures ParseValue(parts[i] + t) == Success(Parsed(xs[i], t))
    {
      ValueRoundTrip(xs[i], t);
    }
    forall i | 0 <= i < |parts|
      ensures parts[i] != [] && (parts[i][0] == '"' || parts[i][0] == 'n')
    {
      assert parts[i] == EncodeValue(xs[i]);
    }
  }

  /** An array that does not start with `]` or white space is its elements. */
  lemma ParseArrayElements<V>(s: string, value: Reader<V>)
    requires s != [] && s[0] != ']' && !IsJsonWhiteSpace(s[0])
    ensures ParseArray(s, value) == ParseElements(s, value)
  {
    SkipNothing(s[0], s[1..]);
    assert [s[0]] + s[1..] == s;
  }

  lemma ParseArrayJoined<V>(parts: seq<string>, vals: seq<V>, value: Reader<V>)
    requires ReadsBack(parts, vals, value)
    ensures ParseArray(Join(",", parts) + "]", value) == Success(Parsed(vals, []))
  {
    if parts == [] {
      ParseArrayEmpty(Join(",", parts) + "]", value);
    } else {
      ParseArrayNonEmpty(parts, vals, value);
    }
  }

  lemma ParseArrayEmpty<V>(s: string, value: Reader<V>)
    requires s == "]"
    ensures ParseArray(s, value) == Success(Parsed([], []))
  {
    assert s[0] == ']' && s[1..] == [];
  }

  lemma ParseArrayNonEmpty<V>(parts: seq<string>, vals: seq<V>, value: Reader<V>)
    requires parts != [] && ReadsBack(parts, vals, value)
    ensures ParseArray(Join(",", parts) + "]", value) == Success(Parsed(vals, []))
  {
    var s := Join(",", parts) + "]";
    assert s + [] == s;
    ReadsBackHead(parts, vals, value, []);
    JoinStart(parts, []);
    JoinedRoundTrip(parts, vals, value, []);
    ParseArrayElements(s, value);
  }

  lemma ArrayRoundTrip(xs: seq<NullableString>)
    ensures ParseArray(Join(",", EncodeValues(xs)) + "]", ParseValue) == Success(Parsed(xs, []))
  {
    EncodedReadsBack(xs);
    ParseArrayJoined(EncodeValues(xs), xs, ParseValue);
  }

  /** Deserialize undoes Serialize, for every list of strings and nulls and
      for the null list. */
  lemma SerializeRoundTrip(xs: Option<seq<NullableString>>)
    ensures Deserialize(Serialize(xs)) == Success(xs)
  {
    match xs
    case None => NullRoundTrip(Serialize(xs));
    case Some(items) => ListRoundTrip(items, Serialize(xs));
  }

  lemma NullRoundTrip(text: string)
    requires text == "null"
    ensures Deserialize(text) == Success(None)
  {
    SkipNothing('n', text[1..]);
    assert text[..4] == "null" && text[4..] == [];
  }

  lemma ListRoundTrip(items: seq<NullableString>, text: string)
    requires text == "[" + Join(",", EncodeValues(items)) + "]"
    ensures Deserialize(text) == Success(Some(items))
  {
    assert text[1..] == Join(",", EncodeValues(items)) + "]";
    ArrayRoundTrip(items);
    DeserializeArray(text, items);
  }

  /** One unfolding of Deserialize for an array that takes up all of `text`. */
  lemma DeserializeArray(text: string, xs: seq<NullableString>)
    requires text != [] && text[0] == '['
    requires ParseArray(text[1..], ParseValue) == Success(Parsed(xs, []))
    ensures Deserialize(text) == Success(Some(xs))
  {
    NotNullLiteral(text);
  }

  /** Text starting with a character other than `n` is not the literal `null`. */
  lemma NotNullLiteral(t: string)
    requires t != [] && t[0] != 'n'
    ensures !StartsWith(t, "null")
  {
    assert |t| < 4 || t[..4][0] == t[0];
  }

  // ---------------------------------------------------------------------
  // What the getters of JournalItem compute

  /** `string.IsNullOrWhiteSpace(text) ? [] : JsonSerializer.Deserialize<List<string>>(text) ?? []`:
      blank text and the JSON `null` give the empty list; text that is not a
      JSON list of strings is a JsonException, not an empty list. */
  function DecodeList(text: NullableString): (r: Result<seq<NullableString>>)
    ensures IsNullOrWhiteSpace(text) ==> r == Success([])
    ensures !IsNullOrWhiteSpace(text) ==> (r.Failure? <==> Deserialize(text.value).Failure?)
    ensures !IsNullOrWhiteSpace(text) && Deserialize(text.value) == Success(None) ==> r == Success([])
    ensures r.Success? && r.value != [] ==> text.Str? && Deserialize(text.value) == Success(Some(r.value))
    ensures !IsNullOrWhiteSpace(text) && Deserialize(text.value).Success? && Deserialize(text.value).value.Some? ==>
            r == Success(Deserialize(text.value).value.value)
  {
    if IsNullOrWhiteSpace(text) then Success([])
    else
      match Deserialize(text.value)
      case Failure(e) => Failure(e)
      case Success(None) => Success([])
      case Success(Some(xs)) => Success(xs)
  }

  /** `JsonSerializer.Serialize(value)` as the setters store it. */
  function EncodeList(xs: Option<seq<NullableString>>): (r: NullableString)
    ensures r.Str? && !IsNullOrWhiteSpace(r)
    ensures DecodeList(r) == Success(if xs.Some? then xs.value else [])
  {
    SerializeRoundTrip(xs);
    Str(Serialize(xs))
  }

  /** Text whose first non-white-space character opens neither an array nor
      `null` is a decoding failure. */
  lemma DecodeRejectsOtherValues(text: string)
    requires !AllWhiteSpace(text)
    requires SkipWhiteSpace(text) != [] && SkipWhiteSpace(text)[0] !in "[n"
    ensures DecodeList(Str(text)).Failure?
  {
    DeserializeRejects(text);
  }

  lemma DeserializeRejects(text: string)
    requires SkipWhiteSpace(text) != [] && SkipWhiteSpace(text)[0] !in "[n"
    ensures Deserialize(text) == Failure(JsonException)
  {
    NotNullLiteral(SkipWhiteSpace(text));
  }
}
