/** The HTTP routes of the todo API: the text escaper applied before
    storage, the id gate run before validation, and the mapping from each
    repository outcome to a status code and a body. */
module TodoRoutes {
  import opened Wrappers
  import opened Json
  import opened JsBuiltins
  import opened TodoTypes
  import opened TodoSchemas
  import opened Repository

  // ---------------------------------------------------------------------
  // sanitizeText

  /** `s.replace(/c/g, by)`: every occurrence of `c` replaced by `repl`. */
  function ReplaceAll(s: string, c: char, repl: string): (r: string)
    ensures c !in repl ==> c !in r
  {
    if s == [] then []
    else (if s[0] == c then repl else [s[0]]) + ReplaceAll(s[1..], c, repl)
  }

  /** A global replace works occurrence by occurrence, so it distributes
      over concatenation. */
  lemma {:induction false} ReplaceAllConcat(a: string, b: string, c: char, repl: string)
    ensures ReplaceAll(a + b, c, repl) == ReplaceAll(a, c, repl) + ReplaceAll(b, c, repl)
  {
    if a != [] {
      assert (a + b)[0] == a[0];
      assert (a + b)[1..] == a[1..] + b;
      var head := if a[0] == c then repl else [a[0]];
      assert ReplaceAll(a + b, c, repl) == head + ReplaceAll(a[1..] + b, c, repl);
      assert ReplaceAll(a, c, repl) == head + ReplaceAll(a[1..], c, repl);
      ReplaceAllConcat(a[1..], b, c, repl);
    } else {
      assert a + b == b;
    }
  }

  /** Replacing a character that does not occur changes nothing. */
  lemma {:induction false} ReplaceAllAbsent(s: string, c: char, repl: string)
    requires c !in s
    ensures ReplaceAll(s, c, repl) == s
  {
    if s != [] {
      ReplaceAllAbsent(s[1..], c, repl);
    }
  }

  /** `sanitizeText`: five global replaces, `&` first. */
  function SanitizeText(input: string): string {
    var amp := ReplaceAll(input, '&', "&amp;");
    var lt := ReplaceAll(amp, '<', "&lt;");
    var gt := ReplaceAll(lt, '>', "&gt;");
    var quot := ReplaceAll(gt, '"', "&quot;");
    ReplaceAll(quot, '\'', "&#39;")
  }

  /** The five characters the escaper rewrites. */
  predicate IsEscaped(c: char) {
    c == '&' || c == '<' || c == '>' || c == '"' || c == '\''
  }

  /** No character of `s` is one the escaper rewrites. */
  predicate Plain(s: string) {
    forall i :: 0 <= i < |s| ==> !IsEscaped(s[i])
  }

  /** The characters that could open markup or end an attribute value. */
  predicate IsMarkup(c: char) {
    c == '<' || c == '>' || c == '"' || c == '\''
  }

  /** The entity each rewritten character becomes; other characters stay. */
  function EscapeChar(c: char): (e: string)
    ensures e != [] && (e[0] == '&' <==> IsEscaped(c))
    ensures !IsEscaped(c) ==> e == [c]
  {
    match c
    case '&' => "&amp;"
    case '<' => "&lt;"
    case '>' => "&gt;"
    case '"' => "&quot;"
    case '\'' => "&#39;"
    case _ => [c]
  }

  /** Single-pass escaping, character by character: the reference the
      chain of replaces is proved equal to. */
  function EscapeEach(s: string): string {
    if s == [] then [] else EscapeChar(s[0]) + EscapeEach(s[1..])
  }

  lemma {:induction false} EscapeEachConcat(a: string, b: string)
    ensures EscapeEach(a + b) == EscapeEach(a) + EscapeEach(b)
  {
    if a != [] {
      assert (a + b)[0] == a[0];
      assert (a + b)[1..] == a[1..] + b;
      EscapeEachConcat(a[1..], b);
    } else {
      assert a + b == b;
    }
  }

  lemma SanitizeConcat(a: string, b: string)
    ensures SanitizeText(a + b) == SanitizeText(a) + SanitizeText(b)
  {
    var amp := ReplaceAll(a, '&', "&amp;");
    var amp' := ReplaceAll(b, '&', "&amp;");
    ReplaceAllConcat(a, b, '&', "&amp;");
    var lt := ReplaceAll(amp, '<', "&lt;");
    var lt' := ReplaceAll(amp', '<', "&lt;");
    ReplaceAllConcat(amp, amp', '<', "&lt;");
    var gt := ReplaceAll(lt, '>', "&gt;");
    var gt' := ReplaceAll(lt', '>', "&gt;");
    ReplaceAllConcat(lt, lt', '>', "&gt;");
    var quot := ReplaceAll(gt, '"', "&quot;");
    var quot' := ReplaceAll(gt', '"', "&quot;");
    ReplaceAllConcat(gt, gt', '"', "&quot;");
    ReplaceAllConcat(quot, quot', '\'', "&#39;");
  }

  lemma ReplaceAllSingle(x: char, c: char, repl: string)
    ensures ReplaceAll([x], c, repl) == if x == c then repl else [x]
  {
    assert [x][1..] == [];
  }

  /** Five replaces in a row on one character: the first rule that matches
      decides, provided no later rule's character occurs in an earlier
      rule's replacement. */
  lemma ReplaceChainOnChar(x: char, c1: char, e1: string, c2: char, e2: string,
                           c3: char, e3: string, c4: char, e4: string, c5: char, e5: string)
    requires c2 !in e1 && c3 !in e1 && c4 !in e1 && c5 !in e1
    requires c3 !in e2 && c4 !in e2 && c5 !in e2
    requires c4 !in e3 && c5 !in e3
    requires c5 !in e4
    ensures ReplaceAll(ReplaceAll(ReplaceAll(ReplaceAll(ReplaceAll([x], c1, e1), c2, e2), c3, e3), c4, e4), c5, e5)
         == if x == c1 then e1 else if x == c2 then e2 else if x == c3 then e3
            else if x == c4 then e4 else if x == c5 then e5 else [x]
  {
    var s1 := ReplaceAll([x], c1, e1);
    ReplaceAllSingle(x, c1, e1);
    var s2 := ReplaceAll(s1, c2, e2);
    var s3 := ReplaceAll(s2, c3, e3);
    var s4 := ReplaceAll(s3, c4, e4);
    if x == c1 {
      ReplaceAllAbsent(s1, c2, e2);
      ReplaceAllAbsent(s2, c3, e3);
      ReplaceAllAbsent(s3, c4, e4);
      ReplaceAllAbsent(s4, c5, e5);
      return;
    }
    ReplaceAllSingle(x, c2, e2);
    if x == c2 {
      ReplaceAllAbsent(s2, c3, e3);
      ReplaceAllAbsent(s3, c4, e4);
      ReplaceAllAbsent(s4, c5, e5);
      return;
    }
    ReplaceAllSingle(x, c3, e3);
    if x == c3 {
      ReplaceAllAbsent(s3, c4, e4);
      ReplaceAllAbsent(s4, c5, e5);
      return;
    }
    ReplaceAllSingle(x, c4, e4);
    if x == c4 {
      ReplaceAllAbsent(s4, c5, e5);
      return;
    }
    ReplaceAllSingle(x, c5, e5);
  }

  /** On one character the chain of replaces produces that character's
      entity: the entities written by later steps contain no `&` to be
      re-escaped, because `&` is replaced first. */
  lemma SanitizeChar(c: char)
    ensures SanitizeText([c]) == EscapeChar(c)
  {
    ReplaceChainOnChar(c, '&', "&amp;", '<', "&lt;", '>', "&gt;", '"', "&quot;", '\'', "&#39;");
  }

  /** The chain of global replaces equals escaping each character once. */
  lemma {:induction false} SanitizeIsEscapeEach(s: string)
    ensures SanitizeText(s) == EscapeEach(s)
  {
    if s == [] {
      ReplaceAllAbsent(s, '&', "&amp;");
      ReplaceAllAbsent(s, '<', "&lt;");
      ReplaceAllAbsent(s, '>', "&gt;");
      ReplaceAllAbsent(s, '"', "&quot;");
      ReplaceAllAbsent(s, '\'', "&#39;");
    } else {
      assert s == [s[0]] + s[1..];
      SanitizeConcat([s[0]], s[1..]);
      SanitizeChar(s[0]);
      SanitizeIsEscapeEach(s[1..]);
    }
  }

  lemma {:induction false} EscapeEachNoMarkup(s: string)
    ensures forall i :: 0 <= i < |EscapeEach(s)| ==> !IsMarkup(EscapeEach(s)[i])
  {
    if s != [] {
      EscapeEachNoMarkup(s[1..]);
      var e := EscapeChar(s[0]);
      var o := EscapeEach(s);
      forall i | 0 <= i < |o| ensures !IsMarkup(o[i]) {
        if i >= |e| {
          assert o[i] == EscapeEach(s[1..])[i - |e|];
        }
      }
    }
  }

  /** The escaped text contains none of `<`, `>`, `"`, `'`. */
  lemma SanitizedHasNoMarkup(s: string)
    ensures forall i :: 0 <= i < |SanitizeText(s)| ==> !IsMarkup(SanitizeText(s)[i])
  {
    SanitizeIsEscapeEach(s);
    EscapeEachNoMarkup(s);
  }

  /** The five entities the escaper writes. */
  predicate EntityAt(s: string, i: int)
    requires 0 <= i <= |s|
  {
    var t := s[i..];
    "&amp;" <= t || "&lt;" <= t || "&gt;" <= t || "&quot;" <= t || "&#39;" <= t
  }

  /** Inside one character's escape the only `&` is the first character of
      an entity. */
  lemma EscapeCharAmpersand(c: char, i: int, rest: string)
    requires 0 <= i < |EscapeChar(c)| && EscapeChar(c)[i] == '&'
    ensures i == 0 && EntityAt(EscapeChar(c) + rest, 0)
  {
    var o := EscapeChar(c) + rest;
    assert o[0..] == o;
    match c
    case '&' => assert o[..5] == "&amp;";
    case '<' => assert o[..4] == "&lt;";
    case '>' => assert o[..4] == "&gt;";
    case '"' => assert o[..6] == "&quot;";
    case '\'' => assert o[..5] == "&#39;";
    case _ => assert false;
  }

  /** Every `&` in `o` begins one of the five entities. */
  predicate AmpersandsOpenEntities(o: string) {
    forall i :: 0 <= i < |o| && o[i] == '&' ==> EntityAt(o, i)
  }

  lemma {:induction false} EscapeEachAmpersands(s: string)
    ensures AmpersandsOpenEntities(EscapeEach(s))
  {
    if s != [] {
      EscapeEachAmpersands(s[1..]);
      var e := EscapeChar(s[0]);
      var rest := EscapeEach(s[1..]);
      var o := EscapeEach(s);
      assert o == e + rest;
      forall i | 0 <= i < |o| && o[i] == '&' ensures EntityAt(o, i) {
        if i >= |e| {
          var j := i - |e|;
          assert o[i..] == rest[j..];
          assert rest[j] == '&';
          assert EntityAt(rest, j);
        } else {
          assert o[i] == e[i];
          EscapeCharAmpersand(s[0], i, rest);
        }
      }
    }
  }

  /** Every `&` in the escaped text begins one of the five entities: no
      entity is escaped a second time. */
  lemma SanitizedAmpersands(s: string)
    ensures AmpersandsOpenEntities(SanitizeText(s))
  {
    SanitizeIsEscapeEach(s);
    EscapeEachAmpersands(s);
  }

  /** Text with none of the five characters passes through unchanged. */
  lemma {:induction false} SanitizeIdentity(s: string)
    requires Plain(s)
    ensures SanitizeText(s) == s
  {
    SanitizeIsEscapeEach(s);
    EscapeEachIdentity(s);
  }

  lemma {:induction false} EscapeEachIdentity(s: string)
    requires Plain(s)
    ensures EscapeEach(s) == s
  {
    if s != [] {
      EscapeEachIdentity(s[1..]);
    }
  }

  /** Occurrences of `c` in `s`. */
  function Count(s: string, c: char): nat {
    if s == [] then 0 else (if s[0] == c then 1 else 0) + Count(s[1..], c)
  }

  /** Each `&` grows by 4 characters, each `<` and `>` by 3, each `"` by 5
      and each `'` by 4. */
  lemma {:induction false} SanitizedLength(s: string)
    ensures |SanitizeText(s)| ==
      |s| + 4 * Count(s, '&') + 3 * Count(s, '<') + 3 * Count(s, '>')
          + 5 * Count(s, '"') + 4 * Count(s, '\'')
  {
    SanitizeIsEscapeEach(s);
    EscapeEachLength(s);
  }

  lemma {:induction false} EscapeEachLength(s: string)
    ensures |EscapeEach(s)| ==
      |s| + 4 * Count(s, '&') + 3 * Count(s, '<') + 3 * Count(s, '>')
          + 5 * Count(s, '"') + 4 * Count(s, '\'')
  {
    if s != [] {
      EscapeEachLength(s[1..]);
    }
  }

  /** The character an entity at the start of `s` stands for, and the
      entity's length; None when `s` does not start with one of the five. */
  function DecodeEntity(s: string): (r: Option<(char, nat)>)
    ensures r.Some? ==> 0 < r.value.1 <= |s|
  {
    if s == [] || s[0] != '&' then None
    else if "&amp;" <= s then Some(('&', 5))
    else if "&lt;" <= s then Some(('<', 4))
    else if "&gt;" <= s then Some(('>', 4))
    else if "&quot;" <= s then Some(('"', 6))
    else if "&#39;" <= s then Some(('\'', 5))
    else None
  }

  /** Decoding of the five entities, left to right; any other character,
      a lone `&` included, is kept. */
  function Unescape(s: string): string
    decreases |s|
  {
    if s == [] then []
    else match DecodeEntity(s)
      case Some((c, n)) => [c] + Unescape(s[n..])
      case None => [s[0]] + Unescape(s[1..])
  }

  /** An escaped character followed by anything decodes to that character. */
  lemma DecodeEscapeChar(c: char, rest: string)
    ensures var e := EscapeChar(c);
      DecodeEntity(e + rest) == if IsEscaped(c) then Some((c, |e|)) else None
  {
    var e := EscapeChar(c);
    var s := e + rest;
    assert s[..|e|] == e;
    match c
    case '&' =>
    case '<' => assert s[1] == 'l';
    case '>' => assert s[1] == 'g';
    case '"' => assert s[1] == 'q';
    case '\'' => assert s[1] == '#';
    case _ => assert s[0] == c;
  }

  lemma UnescapeEscapeChar(c: char, rest: string)
    ensures Unescape(EscapeChar(c) + rest) == [c] + Unescape(rest)
  {
    var e := EscapeChar(c);
    var s := e + rest;
    DecodeEscapeChar(c, rest);
    assert s[|e|..] == rest;
    if !IsEscaped(c) {
      assert s[0] == c;
    }
  }

  /** Decoding undoes escaping. */
  lemma {:induction false} UnescapeEscapeEach(s: string)
    ensures Unescape(EscapeEach(s)) == s
  {
    if s != [] {
      UnescapeEscapeChar(s[0], EscapeEach(s[1..]));
      UnescapeEscapeEach(s[1..]);
    }
  }

  /** Decoding the entities recovers the text that was escaped, so two
      different texts are never stored as the same escaped text. */
  lemma SanitizeInjective(a: string, b: string)
    ensures Unescape(SanitizeText(a)) == a
    ensures SanitizeText(a) == SanitizeText(b) ==> a == b
  {
    SanitizeIsEscapeEach(a);
    SanitizeIsEscapeEach(b);
    UnescapeEscapeEach(a);
    UnescapeEscapeEach(b);
  }

  /** A character's escape starts with whitespace exactly when the character
      is whitespace, which is then kept as it is. */
  lemma EscapeCharWhitespace(c: char)
    ensures IsWhitespace(EscapeChar(c)[0]) <==> IsWhitespace(c)
    ensures IsWhitespace(c) ==> EscapeChar(c) == [c]
  {
  }

  lemma {:induction false} EscapeEachBlank(s: string)
    ensures Blank(EscapeEach(s)) <==> Blank(s)
  {
    if s != [] {
      var e, rest := EscapeChar(s[0]), EscapeEach(s[1..]);
      EscapeCharWhitespace(s[0]);
      EscapeEachBlank(s[1..]);
      assert EscapeEach(s) == e + rest;
      if Blank(EscapeEach(s)) {
        assert IsWhitespace((e + rest)[0]);
        forall i | 0 <= i < |rest| ensures IsWhitespace(rest[i]) {
          assert rest[i] == (e + rest)[|e| + i];
        }
        assert s == [s[0]] + s[1..];
      }
      if Blank(s) {
        assert IsWhitespace(s[0]);
        assert forall i :: 0 <= i < |s[1..]| ==> IsWhitespace(s[1..][i]);
      }
    }
  }

  /** Escaping neither creates nor removes visible text: the stored text is
      whitespace only exactly when the submitted text is. */
  lemma SanitizePreservesBlank(s: string)
    ensures Blank(SanitizeText(s)) <==> Blank(s)
  {
    SanitizeIsEscapeEach(s);
    EscapeEachBlank(s);
  }

  lemma {:induction false} CountAll(s: string, c: char, d: char)
    requires forall i :: 0 <= i < |s| ==> s[i] == c
    ensures Count(s, c) == |s|
    ensures c != d ==> Count(s, d) == 0
  {
    if s != [] {
      CountAll(s[1..], c, d);
    }
  }

  /** Length is validated before escaping: a text of ampersands only is
      stored five times as long, so a 500-character text is stored as 2500
      characters. */
  lemma AmpersandsGrowFivefold(s: string)
    requires forall i :: 0 <= i < |s| ==> s[i] == '&'
    ensures |SanitizeText(s)| == 5 * |s|
  {
    SanitizedLength(s);
    CountAll(s, '&', '<');
    CountAll(s, '&', '>');
    CountAll(s, '&', '"');
    CountAll(s, '&', '\'');
  }

  lemma EscapeEachSingle(c: char)
    ensures EscapeEach([c]) == EscapeChar(c)
  {
    assert [c][1..] == [];
  }

  lemma EscapeEachConcat3(a: string, b: string, c: string)
    ensures EscapeEach(a + b + c) == EscapeEach(a) + EscapeEach(b) + EscapeEach(c)
  {
    EscapeEachConcat(a + b, c);
    EscapeEachConcat(a, b);
  }

  lemma EscapeDelimiters()
    ensures EscapeEach("<") == "&lt;" && EscapeEach(">") == "&gt;"
    ensures EscapeEach("(\"") == "(&quot;"
    ensures EscapeEach("\")</") == "&quot;)&lt;/"
  {
    EscapeEachSingle('<');
    EscapeEachSingle('>');
    EscapeEachConcat("(", "\"");
    EscapeEachSingle('(');
    EscapeEachSingle('"');
    EscapeEachConcat("\")", "</");
    EscapeEachConcat("\"", ")");
    EscapeEachSingle(')');
    EscapeEachConcat("<", "/");
    EscapeEachSingle('/');
  }

  /** A script element calling a function on a quoted argument: the tags
      and quotes become entities and the rest is kept. With name `script`,
      function `alert` and argument `x` this is the text
      `<script>alert("x")</script>`, stored as
      `&lt;script&gt;alert(&quot;x&quot;)&lt;/script&gt;`. */
  lemma SanitizeScriptElement(name: string, fn: string, arg: string)
    requires Plain(name) && Plain(fn) && Plain(arg)
    ensures SanitizeText("<" + name + ">" + fn + "(\"" + arg + "\")</" + name + ">")
         == "&lt;" + name + "&gt;" + fn + "(&quot;" + arg + "&quot;)&lt;/" + name + "&gt;"
  {
    var p1, p2, p3, p4, p5 := "<", ">", "(\"", "\")</", ">";
    var s1 := p1 + name;
    var s2 := s1 + p2;
    var s3 := s2 + fn;
    var s4 := s3 + p3;
    var s5 := s4 + arg;
    var s6 := s5 + p4;
    var s7 := s6 + name;
    var s8 := s7 + p5;
    SanitizeIsEscapeEach(s8);
    EscapeDelimiters();
    EscapeEachIdentity(name);
    EscapeEachIdentity(fn);
    EscapeEachIdentity(arg);
    EscapeEachConcat(p1, name);
    EscapeEachConcat(s1, p2);
    EscapeEachConcat(s2, fn);
    EscapeEachConcat(s3, p3);
    EscapeEachConcat(s4, arg);
    EscapeEachConcat(s5, p4);
    EscapeEachConcat(s6, name);
    EscapeEachConcat(s7, p5);
  }

  // ---------------------------------------------------------------------
  // parseTodoId

  /** The raw `id` route parameter: a number, or any other value as its
      `String(value)` rendering (a path segment is already a string). */
  datatype IdValue = NumberValue(n: Number) | TextValue(s: string)

  /** `parseTodoId`: a number is kept as it is, anything else goes through
      `parseInt(String(value), 10)`; the id is accepted only when it is an
      integer of at least 1. */
  function ParseTodoId(value: IdValue): (r: Option<int>)
    ensures r.Some? ==> r.value >= 1
    ensures value.NumberValue? ==>
      && (r.Some? <==> IsIdParam(value.n))
      && (r.Some? ==> r.value as real == value.n.value)
    ensures value.TextValue? ==>
      && (r.Some? <==> ParseInt(value.s).Some? && ParseInt(value.s).value >= 1)
      && (r.Some? ==> r == ParseInt(value.s))
  {
    match value
    case NumberValue(n) =>
      if IsInteger(n) && n.value >= 1.0 then Some(n.value.Floor) else None
    case TextValue(s) =>
      var parsed := ParseInt(s);
      if parsed.Some? && parsed.value >= 1 then parsed else None
  }

  /** Every accepted id satisfies the parameter schema, which therefore
      never rejects an id that got past the gate. */
  lemma AcceptedIdMeetsSchema(value: IdValue)
    requires ParseTodoId(value).Some?
    ensures IsIdParam(Finite(ParseTodoId(value).value as real))
  {
  }

  /** The id rendered into a URL path is read back exactly when it is at
      least 1. */
  lemma ParseTodoIdOfRenderedId(id: int)
    ensures ParseTodoId(TextValue(DecimalString(id))) == if id >= 1 then Some(id) else None
  {
    ParseIntOfDecimalString(id, []);
    assert DecimalString(id) + [] == DecimalString(id);
  }

  /** A segment that starts with anything but whitespace, a sign or a digit
      (any letter, as in `invalid-id`) has no digits for `parseInt` to read
      and is rejected. */
  lemma ParseTodoIdRejectsWord(s: string)
    requires s != [] && !IsWhitespace(s[0]) && s[0] != '-' && s[0] != '+' && !IsDigit(s[0])
    ensures ParseTodoId(TextValue(s)) == None
  {
    assert TrimStart(s) == s;
    assert SignStripped(s) == s;
    assert LeadingDigits(s) == [];
  }

  lemma ParseTodoIdRejectsInvalidId()
    ensures ParseTodoId(TextValue("invalid-id")) == None
  {
    ParseTodoIdRejectsWord("invalid-id");
  }

  /** Only the leading digits of a segment count: `7abc` and `7.5` address
      todo 7. (A number that is not an integer, such as 7.5, is rejected by
      `ParseTodoId` itself.) */
  lemma ParseTodoIdReadsDigitPrefix(d: string, rest: string)
    requires d != [] && forall i :: 0 <= i < |d| ==> IsDigit(d[i])
    requires rest == [] || !IsDigit(rest[0])
    requires DigitsValue(d) >= 1
    ensures ParseTodoId(TextValue(d + rest)) == Some(DigitsValue(d))
  {
    ParseIntOfDigits(d, rest);
  }

  // ---------------------------------------------------------------------
  // Replies

  /** What a reply carries: nothing (204) or a JSON body. */
  datatype Payload = NoContent | JsonBody(body: Json)

  datatype Reply = Reply(status: int, payload: Payload)

  /** The framework's error body shape. */
  function ErrorJson(statusCode: int, error: string, message: string): (j: Json)
    ensures IsErrorJson(j)
  {
    JObj(map["statusCode" := JNum(statusCode as real), "error" := JStr(error), "message" := JStr(message)])
  }

  /** `invalidIdResponse`. */
  const InvalidIdResponse: Json := ErrorJson(404, "Not Found", "Todo not found")

  const NotFoundReply := Reply(404, JsonBody(InvalidIdResponse))

  /** The not-found reply carries `invalidIdResponse`: status 404, error
      "Not Found", message "Todo not found"; it conforms to the routes that
      take an id and to no other. */
  lemma NotFoundReplyConforms()
    ensures NotFoundReply.status == 404 && NotFoundReply.payload == JsonBody(InvalidIdResponse)
    ensures Property(InvalidIdResponse, "statusCode") == Some(JNum(404 as real))
    ensures Property(InvalidIdResponse, "error") == Some(JStr("Not Found"))
    ensures Property(InvalidIdResponse, "message") == Some(JStr("Todo not found"))
    ensures Conforms(UpdateRoute, NotFoundReply) && Conforms(DeleteRoute, NotFoundReply)
    ensures !Conforms(ListRoute, NotFoundReply) && !Conforms(CreateRoute, NotFoundReply)
  {
  }

  datatype Route = ListRoute | CreateRoute | UpdateRoute | DeleteRoute

  /** The replies a route may send: the status codes it declares, each with
      a body of the declared schema, 204 with no content (section 15.3.5 of
      RFC 9110), and 500 with the framework's error body. */
  predicate Conforms(route: Route, reply: Reply) {
    match reply.payload
    case NoContent => route == DeleteRoute && reply.status == 204
    case JsonBody(j) =>
      match reply.status
      case 200 => (route == ListRoute && IsTodoListJson(j)) || (route == UpdateRoute && IsTodoJson(j))
      case 201 => route == CreateRoute && IsTodoJson(j)
      case 400 => route != ListRoute && IsErrorJson(j)
      case 404 => (route == UpdateRoute || route == DeleteRoute) && IsErrorJson(j)
      case 500 => IsErrorJson(j)
      case _ => false
  }

  /** GET: the list, serialised in order, with status 200. */
  function ListReply(todos: seq<Todo>): (r: Reply)
    ensures r.status == 200 && Conforms(ListRoute, r)
    ensures r.payload == JsonBody(TodoListJson(todos)) && |r.payload.body.items| == |todos|
  {
    TodoJsonConforms(todos);
    Reply(200, JsonBody(TodoListJson(todos)))
  }

  /** POST: 201 with the created todo, or 500 with the framework's error
      body carrying the message the table raised. */
  function CreatedReply(created: Result<Todo, string>): (r: Reply)
    ensures r.status == 201 <==> created.Success?
    ensures created.Success? ==> r.payload == JsonBody(TodoJson(created.value))
    ensures created.Failure? ==> r == Reply(500, JsonBody(ErrorJson(500, "Internal Server Error", created.error)))
    ensures Conforms(CreateRoute, r)
  {
    match created
    case Success(todo) =>
      TodoJsonConforms([todo]);
      Reply(201, JsonBody(TodoJson(todo)))
    case Failure(message) =>
      Reply(500, JsonBody(ErrorJson(500, "Internal Server Error", message)))
  }

  /** PATCH handler: 404 with the not-found body when the repository found
      no row, otherwise 200 with the updated todo. */
  function UpdatedReply(updated: Option<Todo>): (r: Reply)
    ensures r.status == 200 <==> updated.Some?
    ensures updated.None? ==> r == NotFoundReply
    ensures updated.Some? ==> r.payload == JsonBody(TodoJson(updated.value))
    ensures Conforms(UpdateRoute, r)
  {
    match updated
    case None => NotFoundReply
    case Some(todo) =>
      TodoJsonConforms([todo]);
      Reply(200, JsonBody(TodoJson(todo)))
  }

  /** DELETE handler: 204 with no content when a row was removed, otherwise
      404 with the not-found body. */
  function DeletedReply(removed: bool): (r: Reply)
    ensures r.status == 204 <==> removed
    ensures r.payload == NoContent <==> removed
    ensures !removed ==> r == NotFoundReply
    ensures Conforms(DeleteRoute, r)
  {
    if removed then Reply(204, NoContent) else NotFoundReply
  }

  /** A body that fails its schema: 400 with the validator's message. */
  function BadRequestReply(message: string): (r: Reply)
    ensures r.status == 400
    ensures forall route :: route != ListRoute ==> Conforms(route, r)
  {
    Reply(400, JsonBody(ErrorJson(400, "Bad Request", message)))
  }

  // ---------------------------------------------------------------------
  // Request handling

  /** The parts of a request the routes read; `id` is overwritten by the
      id gate. */
  class RouteRequest {
    var id: IdValue
    var body: Json

    constructor (id: IdValue, body: Json)
      ensures this.id == id && this.body == body
    {
      this.id := id;
      this.body := body;
    }
  }

  /** The `preValidation` hook of PATCH and DELETE: a rejected id ends the
      request with the not-found reply; an accepted one replaces the
      parameter by the parsed number and lets the request go on. */
  method PreValidate(request: RouteRequest) returns (early: Option<Reply>)
    modifies request
    ensures request.body == old(request.body)
    ensures ParseTodoId(old(request.id)).None? ==>
      early == Some(NotFoundReply) && request.id == old(request.id)
    ensures ParseTodoId(old(request.id)).Some? ==>
      early.None? && request.id == NumberValue(Finite(ParseTodoId(old(request.id)).value as real))
  {
    var parsedId := ParseTodoId(request.id);
    if parsedId.None? {
      return Some(NotFoundReply);
    }
    request.id := NumberValue(Finite(parsedId.value as real));
    early := None;
  }

  /** GET /api/todos. */
  method HandleList(repository: TodoRepository) returns (reply: Reply)
    ensures Conforms(ListRoute, reply) && reply.status == 200
    ensures reply.payload.JsonBody? && |reply.payload.body.items| == |repository.rows|
    ensures exists todos ::
      && SortedByCreatedDesc(todos)
      && multiset(todos) == multiset(MapRows(repository.rows))
      && reply == ListReply(todos)
  {
    var todos := repository.GetAll();
    assert |todos| == |MapRows(repository.rows)| by {
      assert |multiset(todos)| == |multiset(MapRows(repository.rows))|;
    }
    reply := ListReply(todos);
  }

  /** POST /api/todos: the body is validated first (400 on failure and the
      table untouched); the escaped text is then stored, at the time `now`. */
  method HandleCreate(repository: TodoRepository, request: RouteRequest, now: string)
    returns (reply: Reply)
    requires repository.Valid()
    modifies repository
    ensures repository.Valid()
    ensures Conforms(CreateRoute, reply)
    ensures ValidateCreateBody(request.body).Failure? ==>
      && reply == BadRequestReply(ValidateCreateBody(request.body).error)
      && repository.rows == old(repository.rows)
    ensures ValidateCreateBody(request.body).Success? ==>
      var stored := SanitizeText(ValidateCreateBody(request.body).value);
      if Blank(stored) then
        reply == CreatedReply(Failure(EmptyTextError)) && repository.rows == old(repository.rows)
      else
        reply.status == 201 && |repository.rows| == |old(repository.rows)| + 1 &&
        var row := repository.rows[|old(repository.rows)|];
        && repository.rows == old(repository.rows) + [row]
        && row.text == stored && row.completed == 0 && row.createdAt == now
        && row.id !in Ids(old(repository.rows))
        && reply == CreatedReply(Success(MapTodoRow(row)))
  {
    var body := ValidateCreateBody(request.body);
    if body.Failure? {
      return BadRequestReply(body.error);
    }
    var sanitizedText := SanitizeText(body.value);
    var todo := repository.Create(sanitizedText, now);
    reply := CreatedReply(todo);
  }

  /** PATCH /api/todos/:id: the id gate runs before any validation, so a
      rejected id gets the not-found reply whatever the body; then the body
      is validated; then the flag is stored. The table is touched only in
      the last case. */
  method HandleUpdate(repository: TodoRepository, request: RouteRequest) returns (reply: Reply)
    requires repository.Valid()
    modifies repository, request
    ensures repository.Valid()
    ensures Conforms(UpdateRoute, reply)
    ensures ParseTodoId(old(request.id)).None? ==>
      reply == NotFoundReply && repository.rows == old(repository.rows)
    ensures ParseTodoId(old(request.id)).Some? && ValidateUpdateBody(old(request.body)).Failure? ==>
      reply == BadRequestReply(ValidateUpdateBody(old(request.body)).error)
      && repository.rows == old(repository.rows)
    ensures ParseTodoId(old(request.id)).Some? && ValidateUpdateBody(old(request.body)).Success? ==>
      var id, completed := ParseTodoId(old(request.id)).value, ValidateUpdateBody(old(request.body)).value;
      && repository.rows == UpdateRows(old(repository.rows), id, completed)
      && reply == UpdatedReply(UpdatedTodo(old(repository.rows), id, completed))
  {
    var early := PreValidate(request);
    if early.Some? {
      return early.value;
    }
    var body := ValidateUpdateBody(request.body);
    if body.Failure? {
      return BadRequestReply(body.error);
    }
    var id := request.id.n.value.Floor;
    var updated := repository.Update(id, body.value);
    reply := UpdatedReply(updated);
  }

  /** DELETE /api/todos/:id: a rejected id gets the not-found reply and the
      table is untouched; otherwise 204 when a row was removed, 404 when
      none had the id. */
  method HandleDelete(repository: TodoRepository, request: RouteRequest) returns (reply: Reply)
    requires repository.Valid()
    modifies repository, request
    ensures repository.Valid()
    ensures Conforms(DeleteRoute, reply)
    ensures ParseTodoId(old(request.id)).None? ==>
      reply == NotFoundReply && repository.rows == old(repository.rows)
    ensures ParseTodoId(old(request.id)).Some? ==>
      var id := ParseTodoId(old(request.id)).value;
      && repository.rows == DeleteRows(old(repository.rows), id)
      && (reply.status == 204 <==> id in Ids(old(repository.rows)))
      && reply == DeletedReply(id in Ids(old(repository.rows)))
  {
    var early := PreValidate(request);
    if early.Some? {
      return early.value;
    }
    var id := request.id.n.value.Floor;
    var removed := repository.Delete(id);
    reply := DeletedReply(removed);
  }
}
