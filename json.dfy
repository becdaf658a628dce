/**
 * The two ends of the progress bridge's wire format. The page serializes the progress
 * object with `JSON.stringify` (string-valued members only, an `undefined` member is
 * omitted), and `handle_console` (app.py) decodes the text with Python's `json.loads`.
 * The encoder follows QuoteJSONString (section 25.5.2.3 of ECMA-262); the decoder is
 * the part of `json.loads` that objects with string members exercise, and reports
 * every other JSON value as unsupported.
 */
module Json {
  import opened Wrappers

  // ---------------------------------------------------------------- encoding

  /** A lower-case hexadecimal digit, as `JSON.stringify` writes them. */
  function HexDigit(d: nat): (c: char)
    requires d < 16
    ensures d < 10 ==> '0' <= c <= '9'
    ensures 10 <= d ==> 'a' <= c <= 'f'
  {
    if d < 10 then ('0' as int + d) as char else ('a' as int + d - 10) as char
  }

  /** The escape sequence `JSON.stringify` writes for one character of a string. */
  function EscapeChar(c: char): string
  {
    if c == '"' then "\\\""
    else if c == '\\' then "\\\\"
    else if c as int == 0x08 then "\\b"
    else if c == '\t' then "\\t"
    else if c == '\n' then "\\n"
    else if c as int == 0x0c then "\\f"
    else if c == '\r' then "\\r"
    else if c as int < 0x20 then "\\u00" + [HexDigit(c as int / 16), HexDigit(c as int % 16)]
    else [c]
  }

  function EscapeString(s: string): string
  {
    if s == [] then [] else EscapeChar(s[0]) + EscapeString(s[1..])
  }

  /** A JSON string literal. */
  function Quote(s: string): string
  {
    "\"" + EscapeString(s) + "\""
  }

  /** One `"key":"value"` member. */
  function Member(m: (string, string)): string
  {
    Quote(m.0) + ":" + Quote(m.1)
  }

  function JoinMembers(ms: seq<(string, string)>): string
  {
    if ms == [] then ""
    else if |ms| == 1 then Member(ms[0])
    else Member(ms[0]) + "," + JoinMembers(ms[1..])
  }

  /** The members whose value is defined; `JSON.stringify` skips `undefined` ones. */
  function Present(entries: seq<(string, Option<string>)>): (ms: seq<(string, string)>)
    ensures |ms| <= |entries|
  {
    if entries == [] then []
    else
      (if entries[0].1.Some? then [(entries[0].0, entries[0].1.value)] else [])
      + Present(entries[1..])
  }

  /** `JSON.stringify` of an object literal whose members are strings or `undefined`. */
  function StringifyObject(entries: seq<(string, Option<string>)>): string
  {
    "{" + JoinMembers(Present(entries)) + "}"
  }

  // ---------------------------------------------------------------- decoding

  datatype DecodeError =
    | Malformed          // `json.loads` raises JSONDecodeError
    | NotAnObject        // the text is not an object: it fails to decode, or decodes to a value that cannot be indexed by a key
    | UnsupportedValue   // a member value that is not a string
    | LoneSurrogate      // a `\u` escape of an unpaired surrogate, which has no `char`

  datatype Unescaped = Unescaped(ch: char, rest: string)
  datatype Scanned = Scanned(value: string, rest: string)
  datatype Parsed = Parsed(fields: map<string, string>, rest: string)

  /** The whitespace JSON allows between tokens. */
  predicate IsJsonWhitespace(c: char)
  {
    c == ' ' || c == '\t' || c == '\n' || c == '\r'
  }

  /** Drops the JSON whitespace that starts `t`. */
  function SkipWhitespace(t: string): (r: string)
    ensures |r| <= |t|
    ensures r != [] ==> !IsJsonWhitespace(r[0])
    ensures t != [] && !IsJsonWhitespace(t[0]) ==> r == t
  {
    if t != [] && IsJsonWhitespace(t[0]) then SkipWhitespace(t[1..]) else t
  }

  /** `t` is a run of JSON whitespace followed by what `SkipWhitespace` returns. */
  lemma {:induction false} SkipWhitespaceDropsBlanks(t: string)
    ensures var r := SkipWhitespace(t);
            r == t[|t| - |r|..] && forall k :: 0 <= k < |t| - |r| ==> IsJsonWhitespace(t[k])
  {
    if t != [] && IsJsonWhitespace(t[0]) {
      SkipWhitespaceDropsBlanks(t[1..]);
      var r := SkipWhitespace(t[1..]);
      assert t[1..][|t| - 1 - |r|..] == t[|t| - |r|..];
      forall k | 1 <= k < |t| - |r| ensures IsJsonWhitespace(t[k]) {
        assert t[k] == t[1..][k - 1];
      }
    }
  }

  /** The value of a hexadecimal digit of either case. */
  function HexValue(c: char): (v: Option<nat>)
    ensures v.Some? ==> v.value < 16
  {
    if '0' <= c <= '9' then Some(c as int - '0' as int)
    else if 'a' <= c <= 'f' then Some(c as int - 'a' as int + 10)
    else if 'A' <= c <= 'F' then Some(c as int - 'A' as int + 10)
    else None
  }

  /** The code unit written by the four hexadecimal digits that start `t`. */
  function Hex4(t: string): (v: Option<nat>)
    ensures v.Some? ==> v.value < 0x10000
  {
    if |t| < 4 then None
    else match (HexValue(t[0]), HexValue(t[1]), HexValue(t[2]), HexValue(t[3]))
      case (Some(a), Some(b), Some(c), Some(d)) => Some(((a * 16 + b) * 16 + c) * 16 + d)
      case _ => None
  }

  /** The code point of a surrogate pair. */
  function CombineSurrogates(high: nat, low: nat): (c: char)
    requires 0xD800 <= high < 0xDC00 && 0xDC00 <= low < 0xE000
    ensures 0x10000 <= c as int
  {
    (0x10000 + (high - 0xD800) * 0x400 + (low - 0xDC00)) as char
  }

  /** The escape sequence after a backslash inside a string literal. */
  function ScanEscape(t: string): (r: Result<Unescaped, DecodeError>)
    ensures r.Ok? ==> |r.value.rest| < |t|
  {
    if t == [] then Err(Malformed)
    else if t[0] == '"' then Ok(Unescaped('"', t[1..]))
    else if t[0] == '\\' then Ok(Unescaped('\\', t[1..]))
    else if t[0] == '/' then Ok(Unescaped('/', t[1..]))
    else if t[0] == 'b' then Ok(Unescaped(0x08 as char, t[1..]))
    else if t[0] == 'f' then Ok(Unescaped(0x0c as char, t[1..]))
    else if t[0] == 'n' then Ok(Unescaped('\n', t[1..]))
    else if t[0] == 'r' then Ok(Unescaped('\r', t[1..]))
    else if t[0] == 't' then Ok(Unescaped('\t', t[1..]))
    else if t[0] != 'u' then Err(Malformed)
    else match Hex4(t[1..])
      case None => Err(Malformed)
      case Some(u) =>
        if u < 0xD800 || 0xE000 <= u then Ok(Unescaped(u as char, t[5..]))
        else if 0xDC00 <= u then Err(LoneSurrogate)
        else if 7 <= |t| && t[5] == '\\' && t[6] == 'u' then
          match Hex4(t[7..])
          case None => Err(Malformed)
          case Some(l) =>
            if 0xDC00 <= l < 0xE000 then Ok(Unescaped(CombineSurrogates(u, l), t[11..]))
            else Err(LoneSurrogate)
        else Err(LoneSurrogate)
  }

  /** A string literal's contents and closing quote; `t` starts after the opening quote. */
  function ScanString(t: string): (r: Result<Scanned, DecodeError>)
    ensures r.Ok? ==> |r.value.rest| < |t|
    decreases |t|
  {
    if t == [] then Err(Malformed)
    else if t[0] == '"' then Ok(Scanned([], t[1..]))
    else if t[0] == '\\' then
      match ScanEscape(t[1..])
      case Err(e) => Err(e)
      case Ok(u) => Prepend(u.ch, ScanString(u.rest))
    else if t[0] as int < 0x20 then Err(Malformed)
    else Prepend(t[0], ScanString(t[1..]))
  }

  function Prepend(c: char, r: Result<Scanned, DecodeError>): Result<Scanned, DecodeError>
  {
    match r
    case Err(e) => Err(e)
    case Ok(s) => Ok(Scanned([c] + s.value, s.rest))
  }

  /**
   * The members of an object from the quote of a key onward, up to and including the
   * closing brace. Each member is entered into `acc` as Python's dict does, so a later
   * duplicate key wins.
   */
  function ParseMembers(t: string, acc: map<string, string>): (r: Result<Parsed, DecodeError>)
    ensures r.Ok? ==> |r.value.rest| < |t|
    decreases |t|, 1
  {
    if t == [] || t[0] != '"' then Err(Malformed)
    else match ScanString(t[1..])
      case Err(e) => Err(e)
      case Ok(key) =>
        var t1 := SkipWhitespace(key.rest);
        if t1 == [] || t1[0] != ':' then Err(Malformed)
        else
          var t2 := SkipWhitespace(t1[1..]);
          if t2 == [] then Err(Malformed)
          else if t2[0] != '"' then Err(UnsupportedValue)
          else match ScanString(t2[1..])
            case Err(e) => Err(e)
            case Ok(value) => AfterMember(value.rest, acc[key.value := value.value])
  }

  /** What may follow a member: the closing brace, or a comma and the next member. */
  function AfterMember(t: string, fields: map<string, string>): (r: Result<Parsed, DecodeError>)
    ensures r.Ok? ==> |r.value.rest| < |t|
    decreases |t|, 0
  {
    var t3 := SkipWhitespace(t);
    if t3 != [] && t3[0] == '}' then Ok(Parsed(fields, t3[1..]))
    else if t3 != [] && t3[0] == ',' then ParseMembers(SkipWhitespace(t3[1..]), fields)
    else Err(Malformed)
  }

  /** `json.loads(text)` for text that should hold one object with string members. */
  function Loads(text: string): (r: Result<map<string, string>, DecodeError>)
    ensures r.Ok? ==> text != [] && text[0] != 0xFEFF as char
  {
    var t := SkipWhitespace(text);
    if text != [] && text[0] == 0xFEFF as char then Err(Malformed)
    else if t == [] then Err(Malformed)
    else if t[0] != '{' then Err(NotAnObject)
    else
      var t1 := SkipWhitespace(t[1..]);
      var members := if t1 != [] && t1[0] == '}' then Ok(Parsed(map[], t1[1..])) else ParseMembers(t1, map[]);
      match members
      case Err(e) => Err(e)
      case Ok(p) => if SkipWhitespace(p.rest) == [] then Ok(p.fields) else Err(Malformed)
  }

  // ---------------------------------------------------------------- round trip

  /** The dict that decoding the members `ms` into `acc` builds. */
  function Enter(acc: map<string, string>, ms: seq<(string, string)>): map<string, string>
    decreases |ms|
  {
    if ms == [] then acc else Enter(acc[ms[0].0 := ms[0].1], ms[1..])
  }

  /** The value an entry list gives key `k`: the first entry with that key, if any. */
  function Find(entries: seq<(string, Option<string>)>, k: string): Option<string>
  {
    if entries == [] then None
    else if entries[0].0 == k then entries[0].1
    else Find(entries[1..], k)
  }

  predicate DistinctKeys(entries: seq<(string, Option<string>)>)
  {
    forall i, j :: 0 <= i < j < |entries| ==> entries[i].0 != entries[j].0
  }

  lemma HexDigitValue(d: nat)
    requires d < 16
    ensures HexValue(HexDigit(d)) == Some(d)
  {
  }

  /** Decoding the escape of `c` yields `c` and scanning carries on after it. */
  lemma ScanEscapedChar(c: char, rest: string)
    ensures ScanString(EscapeChar(c) + rest) == Prepend(c, ScanString(rest))
  {
    if c as int < 0x20 && c != '\t' && c != '\n' && c != '\r' && c as int != 0x08 && c as int != 0x0c {
      ScanUnicodeEscape(c, rest);
    } else if c == '"' || c == '\\' || c as int < 0x20 {
      var t := EscapeChar(c) + rest;
      assert t[1..][1..] == rest;
    } else {
      assert (EscapeChar(c) + rest)[1..] == rest;
    }
  }

  /** A control character without a short escape travels as `\u00XY`. */
  lemma ScanUnicodeEscape(c: char, rest: string)
    requires c as int < 0x20 && c != '\t' && c != '\n' && c != '\r' && c as int != 0x08 && c as int != 0x0c
    ensures ScanString(EscapeChar(c) + rest) == Prepend(c, ScanString(rest))
  {
    var hi, lo := c as int / 16, c as int % 16;
    var t := EscapeChar(c) + rest;
    assert t == ['\\', 'u', '0', '0', HexDigit(hi), HexDigit(lo)] + rest;
    HexDigitValue(hi);
    HexDigitValue(lo);
    assert t[2..][..4] == ['0', '0', HexDigit(hi), HexDigit(lo)];
    assert Hex4(t[2..]) == Some(hi * 16 + lo);
    assert t[1..][5..] == rest;
  }

  /** The decoder reads back exactly the string the encoder quoted. */
  lemma {:induction false} ScanQuoted(s: string, rest: string)
    ensures ScanString(EscapeString(s) + "\"" + rest) == Ok(Scanned(s, rest))
  {
    if s == [] {
      assert EscapeString(s) + "\"" + rest == "\"" + rest;
    } else {
      var tail := EscapeString(s[1..]) + "\"" + rest;
      assert EscapeString(s) + "\"" + rest == EscapeChar(s[0]) + tail;
      ScanEscapedChar(s[0], tail);
      ScanQuoted(s[1..], rest);
      assert [s[0]] + s[1..] == s;
    }
  }

  /** Decoding a quoted string at the start of `Quote(s) + rest`. */
  lemma ScanQuote(s: string, rest: string)
    ensures (Quote(s) + rest)[0] == '"'
    ensures ScanString((Quote(s) + rest)[1..]) == Ok(Scanned(s, rest))
  {
    assert (Quote(s) + rest)[1..] == EscapeString(s) + "\"" + rest;
    ScanQuoted(s, rest);
  }

  /** One encoded member is decoded into the dict, and parsing goes on after it. */
  lemma ParseMember(m: (string, string), tail: string, acc: map<string, string>)
    ensures ParseMembers(Member(m) + tail, acc) == AfterMember(tail, acc[m.0 := m.1])
  {
    var afterKey, valueText := MemberShape(m, tail);
    ScanQuote(m.0, afterKey);
    ScanQuote(m.1, tail);
    ParseMemberSteps(Member(m) + tail, acc, m.0, afterKey, valueText, m.1, tail);
  }

  lemma MemberShape(m: (string, string), tail: string) returns (afterKey: string, valueText: string)
    ensures Member(m) + tail == Quote(m.0) + afterKey
    ensures afterKey == ":" + valueText && valueText == Quote(m.1) + tail
  {
    valueText := Quote(m.1) + tail;
    afterKey := ":" + valueText;
  }

  /** `ParseMembers` on a key, a colon and a string value, with no whitespace between. */
  lemma ParseMemberSteps(t: string, acc: map<string, string>, key: string, afterKey: string,
                         valueText: string, value: string, tail: string)
    requires t != [] && t[0] == '"' && ScanString(t[1..]) == Ok(Scanned(key, afterKey))
    requires afterKey != [] && afterKey[0] == ':' && afterKey[1..] == valueText
    requires valueText != [] && valueText[0] == '"' && ScanString(valueText[1..]) == Ok(Scanned(value, tail))
    ensures ParseMembers(t, acc) == AfterMember(tail, acc[key := value])
  {
  }

  /** The members the encoder joined are decoded into the dict in the same order. */
  lemma {:induction false} ParseJoinedMembers(ms: seq<(string, string)>, acc: map<string, string>, rest: string)
    requires ms != []
    ensures ParseMembers(JoinMembers(ms) + "}" + rest, acc) == Ok(Parsed(Enter(acc, ms), rest))
  {
    var fields := acc[ms[0].0 := ms[0].1];
    if |ms| == 1 {
      assert JoinMembers(ms) + "}" + rest == Member(ms[0]) + ("}" + rest);
      ParseMember(ms[0], "}" + rest, acc);
      CloseObject(rest, fields);
      assert Enter(acc, ms) == Enter(fields, []);
    } else {
      var next := JoinedShape(ms, rest);
      ParseMember(ms[0], "," + next, acc);
      NextMember(next, fields);
      ParseJoinedMembers(ms[1..], fields, rest);
    }
  }

  lemma CloseObject(rest: string, fields: map<string, string>)
    ensures AfterMember("}" + rest, fields) == Ok(Parsed(fields, rest))
  {
    assert ("}" + rest)[1..] == rest;
  }

  lemma NextMember(next: string, fields: map<string, string>)
    requires next != [] && next[0] == '"'
    ensures AfterMember("," + next, fields) == ParseMembers(next, fields)
  {
    assert ("," + next)[1..] == next;
  }

  /** Two or more joined members are the first, a comma and the others. */
  lemma JoinedShape(ms: seq<(string, string)>, rest: string) returns (next: string)
    requires |ms| > 1
    ensures next == JoinMembers(ms[1..]) + "}" + rest
    ensures next != [] && next[0] == '"'
    ensures JoinMembers(ms) + "}" + rest == Member(ms[0]) + ("," + next)
  {
    var first, others := Member(ms[0]), JoinMembers(ms[1..]);
    next := others + "}" + rest;
    assert JoinMembers(ms) == first + "," + others;
    JoinStartsWithQuote(ms[1..]);
    CommaAssoc(first, others, rest);
  }

  /** Joined members start with the opening quote of the first key. */
  lemma JoinStartsWithQuote(ms: seq<(string, string)>)
    requires ms != []
    ensures JoinMembers(ms) != [] && JoinMembers(ms)[0] == '"'
  {
    var q := Quote(ms[0].0);
    QuoteStartsWithQuote(ms[0].0);
    HeadOfConcat(q, ":");
    HeadOfConcat(q + ":", Quote(ms[0].1));
    var rest := JoinFirst(ms);
    HeadOfConcat(Member(ms[0]), rest);
  }

  lemma QuoteStartsWithQuote(s: string)
    ensures Quote(s) != [] && Quote(s)[0] == '"'
  {
    HeadOfConcat("\"", EscapeString(s));
    HeadOfConcat("\"" + EscapeString(s), "\"");
  }

  lemma HeadOfConcat(a: string, b: string)
    requires a != []
    ensures a + b != [] && (a + b)[0] == a[0]
  {
  }

  lemma CommaAssoc(first: string, others: string, rest: string)
    ensures first + "," + others + "}" + rest == first + ("," + (others + "}" + rest))
  {
  }

  /** `json.loads` inverts `JSON.stringify` on string-valued objects. */
  lemma LoadsStringify(entries: seq<(string, Option<string>)>)
    ensures Loads(StringifyObject(entries)) == Ok(Enter(map[], Present(entries)))
  {
    var ms := Present(entries);
    var text := StringifyObject(entries);
    if ms == [] {
      assert text == "{}";
      LoadsEmptyObject();
    } else {
      var body := JoinMembers(ms) + "}" + [];
      JoinStartsWithQuote(ms);
      HeadOfConcat(JoinMembers(ms), "}" + []);
      assert text == "{" + body;
      ParseJoinedMembers(ms, map[], []);
      LoadsMembers(text, body, Enter(map[], ms));
    }
  }

  lemma LoadsEmptyObject()
    ensures Loads("{}") == Ok(map[])
  {
    assert "{}"[1..] == "}";
    assert "}"[1..] == [];
  }

  /** `json.loads` of a brace followed by members that parse to the end of the text. */
  lemma LoadsMembers(text: string, body: string, fields: map<string, string>)
    requires text == "{" + body && body != [] && body[0] == '"'
    requires ParseMembers(body, map[]) == Ok(Parsed(fields, []))
    ensures Loads(text) == Ok(fields)
  {
    assert text[1..] == body;
  }

  /** With distinct keys, the decoded dict holds exactly the defined entries. */
  lemma {:induction false} EnterPresent(acc: map<string, string>, entries: seq<(string, Option<string>)>, k: string)
    requires DistinctKeys(entries)
    decreases |entries|
    ensures Find(entries, k).Some? ==>
              k in Enter(acc, Present(entries)) && Enter(acc, Present(entries))[k] == Find(entries, k).value
    ensures Find(entries, k).None? ==>
              (k in Enter(acc, Present(entries)) <==> k in acc)
              && (k in acc ==> Enter(acc, Present(entries))[k] == acc[k])
  {
    if entries != [] {
      var e := entries[0];
      var rest := entries[1..];
      assert DistinctKeys(rest) by {
        forall i, j | 0 <= i < j < |rest| ensures rest[i].0 != rest[j].0 {
          assert rest[i] == entries[i + 1] && rest[j] == entries[j + 1];
        }
      }
      var acc' := if e.1.Some? then acc[e.0 := e.1.value] else acc;
      assert Enter(acc, Present(entries)) == Enter(acc', Present(rest)) by {
        if e.1.Some? {
          var p := [(e.0, e.1.value)] + Present(rest);
          assert p[0] == (e.0, e.1.value) && p[1..] == Present(rest);
        } else {
          assert Present(entries) == Present(rest);
        }
      }
      if e.0 == k {
        assert forall i :: 0 <= i < |rest| ==> rest[i] == entries[i + 1];
        FindAbsent(rest, k);
      }
      EnterPresent(acc', rest, k);
    }
  }

  /** A key that no entry carries is not found. */
  lemma {:induction false} FindAbsent(entries: seq<(string, Option<string>)>, k: string)
    requires forall i :: 0 <= i < |entries| ==> entries[i].0 != k
    ensures Find(entries, k) == None
  {
    if entries != [] {
      assert forall i :: 0 <= i < |entries[1..]| ==> entries[1..][i] == entries[i + 1];
      FindAbsent(entries[1..], k);
    }
  }

  // ---------------------------------------------------------------- what the encoder writes

  /** A character `JSON.stringify` writes as itself. */
  predicate PlainChar(c: char)
  {
    c as int >= 0x20 && c != '"' && c != '\\'
  }

  /** A plain character that no part of the encoding (punctuation, escapes) introduces. */
  predicate OutsideSyntax(c: char)
  {
    PlainChar(c) && c != '{' && c != '}' && c != ',' && c != ':'
    && !('0' <= c <= '9') && !('a' <= c <= 'f') && c != 'n' && c != 'r' && c != 't' && c != 'u'
  }

  /** The (key, value) pairs of `ms` avoid `c`. */
  predicate MembersAvoid(ms: seq<(string, string)>, c: char)
  {
    forall i :: 0 <= i < |ms| ==> c !in ms[i].0 && c !in ms[i].1
  }

  /** The keys and defined values of `entries` avoid `c`. */
  predicate EntriesAvoid(entries: seq<(string, Option<string>)>, c: char)
  {
    forall i :: 0 <= i < |entries| ==> c !in entries[i].0 && (entries[i].1.Some? ==> c !in entries[i].1.value)
  }

  lemma {:induction false} EscapeConcat(s: string, t: string)
    ensures EscapeString(s + t) == EscapeString(s) + EscapeString(t)
  {
    if s == [] {
      assert s + t == t;
    } else {
      assert (s + t)[0] == s[0] && (s + t)[1..] == s[1..] + t;
      EscapeConcat(s[1..], t);
    }
  }

  /** Text made of plain characters is written unescaped. */
  predicate AllPlain(s: string)
  {
    forall k :: 0 <= k < |s| ==> PlainChar(s[k])
  }

  /** A plain prefix passes through the encoder unchanged. */
  lemma {:induction false} EscapePlainPrefix(p: string, s: string)
    requires AllPlain(p)
    ensures EscapeString(p + s) == p + EscapeString(s)
  {
    if p == [] {
      assert p + s == s;
    } else {
      PlainTail(p);
      EscapePlainPrefix(p[1..], s);
      PlainStep(p, s);
    }
  }

  lemma PlainStep(p: string, s: string)
    requires p != [] && PlainChar(p[0])
    requires EscapeString(p[1..] + s) == p[1..] + EscapeString(s)
    ensures EscapeString(p + s) == p + EscapeString(s)
  {
    var whole, tail := EscapeString(p + s), EscapeString(p[1..] + s);
    UnconsConcat(p, s);
    EscapeOfPlain(p[0]);
    assert whole == [p[0]] + tail;
    ConsAssoc(p, EscapeString(s));
  }

  lemma ConsAssoc(p: string, e: string)
    requires p != []
    ensures [p[0]] + (p[1..] + e) == p + e
  {
    assert [p[0]] + p[1..] == p;
  }

  lemma EscapeOfPlain(c: char)
    requires PlainChar(c)
    ensures EscapeChar(c) == [c]
  {
  }

  lemma PlainTail(p: string)
    requires p != [] && AllPlain(p)
    ensures PlainChar(p[0]) && AllPlain(p[1..])
  {
    forall k | 0 <= k < |p[1..]| ensures PlainChar(p[1..][k]) {
      assert p[1..][k] == p[k + 1];
    }
  }

  lemma UnconsConcat(p: string, s: string)
    requires p != []
    ensures EscapeString(p + s) == EscapeChar(p[0]) + EscapeString(p[1..] + s)
  {
    assert (p + s)[0] == p[0] && (p + s)[1..] == p[1..] + s;
  }

  /** Escaping never introduces a character outside JSON's syntax. */
  lemma {:induction false} EscapeAvoids(s: string, c: char)
    requires OutsideSyntax(c) && c !in s
    ensures c !in EscapeString(s)
  {
    if s != [] {
      assert c != s[0];
      var x := s[0];
      if x as int < 0x20 {
        var hi, lo := x as int / 16, x as int % 16;
        assert HexDigit(hi) != c && HexDigit(lo) != c;
      }
      assert c !in EscapeChar(x);
      EscapeAvoids(s[1..], c);
    }
  }

  lemma QuoteAvoids(s: string, c: char)
    requires OutsideSyntax(c) && c !in s
    ensures c !in Quote(s)
  {
    EscapeAvoids(s, c);
  }

  lemma MemberAvoids(m: (string, string), c: char)
    requires OutsideSyntax(c) && c !in m.0 && c !in m.1
    ensures c !in Member(m)
  {
    EscapeAvoids(m.0, c);
    EscapeAvoids(m.1, c);
  }

  lemma {:induction false} JoinAvoids(ms: seq<(string, string)>, c: char)
    requires OutsideSyntax(c) && MembersAvoid(ms, c)
    ensures c !in JoinMembers(ms)
  {
    if ms != [] {
      MemberAvoids(ms[0], c);
      if |ms| > 1 {
        assert MembersAvoid(ms[1..], c) by {
          forall i | 0 <= i < |ms[1..]| ensures c !in ms[1..][i].0 && c !in ms[1..][i].1 {
            assert ms[1..][i] == ms[i + 1];
          }
        }
        JoinAvoids(ms[1..], c);
      }
    }
  }

  lemma {:induction false} PresentAvoids(entries: seq<(string, Option<string>)>, c: char)
    requires EntriesAvoid(entries, c)
    ensures MembersAvoid(Present(entries), c)
  {
    if entries != [] {
      assert EntriesAvoid(entries[1..], c) by {
        forall i | 0 <= i < |entries[1..]|
          ensures c !in entries[1..][i].0 && (entries[1..][i].1.Some? ==> c !in entries[1..][i].1.value)
        {
          assert entries[1..][i] == entries[i + 1];
        }
      }
      PresentAvoids(entries[1..], c);
    }
  }

  /** A character outside JSON's syntax is in the encoding only if the data has it. */
  lemma StringifyAvoids(entries: seq<(string, Option<string>)>, c: char)
    requires OutsideSyntax(c) && EntriesAvoid(entries, c)
    ensures c !in StringifyObject(entries)
  {
    PresentAvoids(entries, c);
    JoinAvoids(Present(entries), c);
  }

  /** What follows the first member's value: its closing quote and the other members. */
  function AfterFirstValue(others: seq<(string, Option<string>)>): string
  {
    "\"" + (if Present(others) == [] then "" else "," + JoinMembers(Present(others))) + "}"
  }

  /** The encoding of an object whose first member is defined, split around that value. */
  lemma StringifyFirstMember(k: string, v: string, others: seq<(string, Option<string>)>)
    ensures StringifyObject([(k, Some(v))] + others)
            == "{" + Quote(k) + ":\"" + EscapeString(v) + AfterFirstValue(others)
  {
    var entries := [(k, Some(v))] + others;
    assert entries[0] == (k, Some(v)) && entries[1..] == others;
    var ms := Present(entries);
    assert ms == [(k, v)] + Present(others);
    assert ms[0] == (k, v) && ms[1..] == Present(others);
    var rest := JoinFirst(ms);
    var after := AfterFirstValue(others);
    assert after == "\"" + rest + "}";
    var q, e := Quote(k), EscapeString(v);
    assert Member(ms[0]) == q + ":" + ("\"" + e + "\"");
    Regroup(q, e, rest);
  }

  lemma Regroup(q: string, e: string, rest: string)
    ensures "{" + (q + ":" + ("\"" + e + "\"") + rest) + "}" == "{" + q + ":\"" + e + ("\"" + rest + "}")
  {
    assert ":" + "\"" == ":\"";
  }

  /** Joined members are the first one and, if there are more, a comma and the others. */
  lemma JoinFirst(ms: seq<(string, string)>) returns (rest: string)
    requires ms != []
    ensures rest == if |ms| == 1 then "" else "," + JoinMembers(ms[1..])
    ensures JoinMembers(ms) == Member(ms[0]) + rest
  {
    rest := if |ms| == 1 then "" else "," + JoinMembers(ms[1..]);
    if |ms| == 1 {
      assert Member(ms[0]) + rest == Member(ms[0]);
    }
  }

  /**
   * The encoding of an object whose first value starts with a plain text `p`, cut at
   * `p`: removing `p` there leaves the encoding of the object with the rest of the
   * value. The text `x` before the cut avoids every character `c` that the key avoids.
   */
  lemma SplitFirstValue(k: string, p: string, v: string, others: seq<(string, Option<string>)>, c: char)
    returns (x: string, y: string)
    requires AllPlain(p) && OutsideSyntax(c) && c !in k
    ensures StringifyObject([(k, Some(p + v))] + others) == x + (p + y)
    ensures StringifyObject([(k, Some(v))] + others) == x + y
    ensures c !in x
  {
    x, y := CutFirstValue(k, p, v, others);
    KeyPrefixAvoids(k, x, c);
  }

  lemma CutFirstValue(k: string, p: string, v: string, others: seq<(string, Option<string>)>)
    returns (x: string, y: string)
    requires AllPlain(p)
    ensures x == "{" + Quote(k) + ":\""
    ensures StringifyObject([(k, Some(p + v))] + others) == x + (p + y)
    ensures StringifyObject([(k, Some(v))] + others) == x + y
  {
    x := "{" + Quote(k) + ":\"";
    y := EscapeString(v) + AfterFirstValue(others);
    SplitWithPrefix(k, p, v, others, x, y);
    SplitAtValue(k, v, others, x, y);
  }

  lemma SplitAtValue(k: string, v: string, others: seq<(string, Option<string>)>, x: string, y: string)
    requires x == "{" + Quote(k) + ":\"" && y == EscapeString(v) + AfterFirstValue(others)
    ensures StringifyObject([(k, Some(v))] + others) == x + y
  {
    StringifyFirstMember(k, v, others);
    Assoc(x, EscapeString(v), AfterFirstValue(others));
  }

  lemma Assoc(a: string, b: string, c: string)
    ensures a + b + c == a + (b + c)
  {
  }

  lemma KeyPrefixAvoids(k: string, x: string, c: char)
    requires OutsideSyntax(c) && c !in k
    requires x == "{" + Quote(k) + ":\""
    ensures c !in x
  {
    QuoteAvoids(k, c);
  }

  lemma SplitWithPrefix(k: string, p: string, v: string, others: seq<(string, Option<string>)>, x: string, y: string)
    requires AllPlain(p)
    requires x == "{" + Quote(k) + ":\"" && y == EscapeString(v) + AfterFirstValue(others)
    ensures StringifyObject([(k, Some(p + v))] + others) == x + (p + y)
  {
    StringifyFirstMember(k, p + v, others);
    EscapePlainPrefix(p, v);
    RegroupPrefix(x, EscapeString(p + v), AfterFirstValue(others), p, EscapeString(v));
  }

  lemma RegroupPrefix(x: string, e: string, a: string, p: string, ev: string)
    requires e == p + ev
    ensures x + e + a == x + (p + (ev + a))
  {
  }
}
