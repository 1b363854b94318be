/**
 * The session record kept under the `googleCredential` key and its text form: the sign-in page
 * writes it with `JSON.stringify`, the navigation bar reads it back with `JSON.parse`.
 *
 * `Serialize` produces what `JSON.stringify` produces for an object of string fields (fields that
 * are `undefined` are omitted, string characters escaped as JavaScript escapes them). `Parse` reads
 * a JSON object whose member values are strings or `null`, with JSON white space between tokens;
 * any other text is malformed, which is where `JSON.parse` would throw.
 */
module SessionJson {
  import opened Wrappers

  /** `{email, name, picture}`; an absent field is `undefined` (or `null`) on the JavaScript side. */
  datatype SessionRecord = SessionRecord(email: Option<string>, name: Option<string>, picture: Option<string>)

  // ---- string literals ----

  function HexValue(c: char): (r: Option<nat>)
    ensures r.Some? ==> r.value < 16
  {
    if '0' <= c <= '9' then Some(c as int - '0' as int)
    else if 'a' <= c <= 'f' then Some(c as int - 'a' as int + 10)
    else if 'A' <= c <= 'F' then Some(c as int - 'A' as int + 10)
    else None
  }

  /** The lower-case hexadecimal digit `JSON.stringify` writes for `n`. */
  function HexDigit(n: nat): (c: char)
    requires n < 16
    ensures HexValue(c) == Some(n)
  {
    if n < 10 then ('0' as int + n) as char else ('a' as int + n - 10) as char
  }

  /** How `JSON.stringify` writes one character inside a string literal. */
  function EscapeChar(c: char): string {
    if c == '"' then ['\\', '"']
    else if c == '\\' then ['\\', '\\']
    else if c == '\U{8}' then ['\\', 'b']
    else if c == '\t' then ['\\', 't']
    else if c == '\n' then ['\\', 'n']
    else if c == '\U{C}' then ['\\', 'f']
    else if c == '\r' then ['\\', 'r']
    else if c < ' ' then ['\\', 'u', '0', '0', HexDigit(c as int / 16), HexDigit(c as int % 16)]
    else [c]
  }

  /** The body `JSON.stringify` writes for `s`: each character escaped in turn. */
  function Escape(s: string): string {
    if s == [] then [] else EscapeChar(s[0]) + Escape(s[1..])
  }

  /** A JSON string literal with value `s`. */
  function Quote(s: string): string {
    ['"'] + Escape(s) + ['"']
  }

  /** The escape sequence at the start of `t` (the text after a backslash): its character and its length. */
  function Unescape(t: string): (r: Option<(char, nat)>)
    ensures r.Some? ==> 1 <= r.value.1 <= |t|
  {
    if |t| == 0 then None
    else if t[0] == '"' then Some(('"', 1))
    else if t[0] == '\\' then Some(('\\', 1))
    else if t[0] == '/' then Some(('/', 1))
    else if t[0] == 'b' then Some(('\U{8}', 1))
    else if t[0] == 'f' then Some(('\U{C}', 1))
    else if t[0] == 'n' then Some(('\n', 1))
    else if t[0] == 'r' then Some(('\r', 1))
    else if t[0] == 't' then Some(('\t', 1))
    else if t[0] == 'u' && |t| >= 5 then
      var h := (HexValue(t[1]), HexValue(t[2]), HexValue(t[3]), HexValue(t[4]));
      if h.0.None? || h.1.None? || h.2.None? || h.3.None? then None
      else
        var code := ((h.0.value * 16 + h.1.value) * 16 + h.2.value) * 16 + h.3.value;
        // a lone surrogate has no character of its own
        if 0xD800 <= code < 0xE000 then None else Some((code as char, 5))
    else None
  }

  /**
   * The characters of a string literal whose opening quote has been read: its value and the text
   * after its closing quote. Unescaped control characters are not allowed in JSON strings.
   */
  function ParseChars(s: string): (r: Option<(string, string)>)
    ensures r.Some? ==> |r.value.1| < |s|
    decreases |s|
  {
    if |s| == 0 then None
    else if s[0] == '"' then Some(([], s[1..]))
    else if s[0] == '\\' then
      var esc := Unescape(s[1..]);
      if esc.None? then None
      else
        var rest := ParseChars(s[1 + esc.value.1..]);
        if rest.None? then None else Some(([esc.value.0] + rest.value.0, rest.value.1))
    else if s[0] < ' ' then None
    else
      var rest := ParseChars(s[1..]);
      if rest.None? then None else Some(([s[0]] + rest.value.0, rest.value.1))
  }

  /** A character `JSON.stringify` writes as a two-character escape. */
  predicate ShortEscaped(c: char) {
    c == '"' || c == '\\' || c == '\U{8}' || c == '\t' || c == '\n' || c == '\U{C}' || c == '\r'
  }

  lemma ShortEscapeThenParse(c: char, rest: string)
    requires ShortEscaped(c)
    ensures ParseChars(EscapeChar(c) + rest) ==
            var sub := ParseChars(rest); if sub.None? then None else Some(([c] + sub.value.0, sub.value.1))
  {
    var e := EscapeChar(c);
    assert |e| == 2 && e[0] == '\\';
    assert Unescape([e[1]] + rest) == Some((c, 1));
    var s := e + rest;
    assert s[1..] == [e[1]] + rest;
    assert s[2..] == rest;
  }

  lemma UnicodeEscapeThenParse(c: char, rest: string)
    requires c < ' ' && !ShortEscaped(c)
    ensures ParseChars(EscapeChar(c) + rest) ==
            var sub := ParseChars(rest); if sub.None? then None else Some(([c] + sub.value.0, sub.value.1))
  {
    var s := EscapeChar(c) + rest;
    var hi, lo := c as int / 16, c as int % 16;
    assert s[0] == '\\';
    assert s[1..][..5] == ['u', '0', '0', HexDigit(hi), HexDigit(lo)];
    UnescapeControl(c, s[1..]);
    assert s[6..] == rest;
  }

  /** The six-character escape `\u00XY` of a control character reads back as that character. */
  lemma UnescapeControl(c: char, t: string)
    requires c < ' ' && |t| >= 5 && t[..5] == ['u', '0', '0', HexDigit(c as int / 16), HexDigit(c as int % 16)]
    ensures Unescape(t) == Some((c, 5))
  {
    assert t[0] == 'u' && t[1] == '0' && t[2] == '0';
    assert HexValue(t[3]) == Some(c as int / 16) && HexValue(t[4]) == Some(c as int % 16);
    assert ((0 * 16 + 0) * 16 + c as int / 16) * 16 + c as int % 16 == c as int;
  }

  /** One character written by `EscapeChar` reads back as itself, whatever follows. */
  lemma EscapeCharThenParse(c: char, rest: string)
    ensures var r := ParseChars(EscapeChar(c) + rest);
            var sub := ParseChars(rest);
            if sub.None? then r.None? else r == Some(([c] + sub.value.0, sub.value.1))
  {
    if ShortEscaped(c) {
      ShortEscapeThenParse(c, rest);
    } else if c < ' ' {
      UnicodeEscapeThenParse(c, rest);
    } else {
      assert (EscapeChar(c) + rest)[1..] == rest;
    }
  }

  /** A string literal written by `Quote` reads back as the same string. */
  lemma {:induction false} ParseEscaped(v: string, rest: string)
    ensures ParseChars(Escape(v) + ['"'] + rest) == Some((v, rest))
  {
    if v == [] {
      assert Escape(v) + ['"'] + rest == ['"'] + rest;
    } else {
      assert Escape(v) + ['"'] + rest == EscapeChar(v[0]) + (Escape(v[1..]) + ['"'] + rest);
      EscapeCharThenParse(v[0], Escape(v[1..]) + ['"'] + rest);
      ParseEscaped(v[1..], rest);
      assert [v[0]] + v[1..] == v;
    }
  }

  // ---- objects ----

  predicate IsJsonSpace(c: char) {
    c == ' ' || c == '\t' || c == '\n' || c == '\r'
  }

  /** Every character of `s` is JSON white space. */
  predicate JsonBlank(s: string) {
    forall k :: 0 <= k < |s| ==> IsJsonSpace(s[k])
  }

  /** The text after the leading JSON white space. */
  function SkipSpace(s: string): (r: string)
    ensures |r| <= |s|
    ensures |r| > 0 ==> !IsJsonSpace(r[0])
    ensures |s| > 0 && !IsJsonSpace(s[0]) ==> r == s
  {
    if |s| > 0 && IsJsonSpace(s[0]) then SkipSpace(s[1..]) else s
  }

  /** What `SkipSpace` drops is exactly the leading run of JSON white space: the rest is a suffix of `s`. */
  lemma {:induction false} SkipSpaceDrops(s: string)
    ensures var r := SkipSpace(s); r == s[|s| - |r|..] && JsonBlank(s[..|s| - |r|])
    decreases |s|
  {
    if |s| > 0 && IsJsonSpace(s[0]) {
      SkipSpaceDrops(s[1..]);
      var r := SkipSpace(s);
      assert s[1..][|s| - 1 - |r|..] == s[|s| - |r|..];
      assert s[..|s| - |r|] == [s[0]] + s[1..][..|s| - 1 - |r|];
    } else {
      assert s[..0] == [];
    }
  }

  /** Members read so far; a `null` member is `None`. */
  type Members = map<string, Option<string>>

  /** A member value this model reads: a string literal or `null`. */
  function ParseValue(s: string): (r: Option<(Option<string>, string)>)
    ensures r.Some? ==> |r.value.1| < |s|
  {
    if |s| > 0 && s[0] == '"' then
      var str := ParseChars(s[1..]);
      if str.None? then None else Some((Some(str.value.0), str.value.1))
    else if |s| >= 4 && s[..4] == "null" then Some((None, s[4..]))
    else None
  }

  /** One `"key":value` member and the text after it, white space skipped. */
  function ParseMember(s: string): (r: Option<(string, Option<string>, string)>)
    ensures r.Some? ==> |r.value.2| < |s|
  {
    if |s| == 0 || s[0] != '"' then None
    else
      var key := ParseChars(s[1..]);
      if key.None? then None
      else
        var afterKey := SkipSpace(key.value.1);
        if |afterKey| == 0 || afterKey[0] != ':' then None
        else
          var value := ParseValue(SkipSpace(afterKey[1..]));
          if value.None? then None
          else Some((key.value.0, value.value.0, SkipSpace(value.value.1)))
  }

  /**
   * Members separated by commas, up to the closing brace; a later member with the same key
   * overrides an earlier one, as with `JSON.parse`. Returns the text after the brace.
   */
  function ParseMembers(s: string, acc: Members): (r: Option<(Members, string)>)
    decreases |s|
  {
    var member := ParseMember(s);
    if member.None? then None
    else
      var members := acc[member.value.0 := member.value.1];
      var rest := member.value.2;
      if |rest| == 0 then None
      else if rest[0] == '}' then Some((members, rest[1..]))
      else if rest[0] == ',' then ParseMembers(SkipSpace(rest[1..]), members)
      else None
  }

  function Field(m: Members, key: string): Option<string> {
    if key in m then m[key] else None
  }

  /** The destructuring `const { email, picture, name } = ...`: a missing member is `undefined`. */
  function RecordOf(m: Members): SessionRecord {
    SessionRecord(Field(m, "email"), Field(m, "name"), Field(m, "picture"))
  }

  /** `JSON.parse` of the stored text followed by the destructuring; None where it would throw. */
  function Parse(text: string): (r: Option<SessionRecord>)
    ensures r.Some? ==> |SkipSpace(text)| > 0 && SkipSpace(text)[0] == '{'
  {
    var s := SkipSpace(text);
    if |s| == 0 || s[0] != '{' then None
    else
      var body := SkipSpace(s[1..]);
      var members :=
        if |body| > 0 && body[0] == '}' then Some((map[], body[1..]))
        else ParseMembers(body, map[]);
      if members.None? || SkipSpace(members.value.1) != [] then None
      else Some(RecordOf(members.value.0))
  }

  /** The present fields of a record, in the order the sign-in page lists them. */
  function Fields(r: SessionRecord): seq<(string, string)> {
    (if r.email.Some? then [("email", r.email.value)] else [])
    + (if r.name.Some? then [("name", r.name.value)] else [])
    + (if r.picture.Some? then [("picture", r.picture.value)] else [])
  }

  /** One `"key":"value"` member as `JSON.stringify` writes it. */
  function Member(k: string, v: string): string {
    Quote(k) + [':'] + Quote(v)
  }

  function Join(fs: seq<(string, string)>): string
    requires |fs| > 0
  {
    Member(fs[0].0, fs[0].1) + (if |fs| == 1 then [] else [','] + Join(fs[1..]))
  }

  /** `JSON.stringify({email, name, picture})`. */
  function Serialize(r: SessionRecord): (text: string)
    ensures |text| >= 2 && text[0] == '{' && text[|text| - 1] == '}'
  {
    var fs := Fields(r);
    ['{'] + (if fs == [] then [] else Join(fs)) + ['}']
  }

  function Update(acc: Members, fs: seq<(string, string)>): Members
    decreases |fs|
  {
    if fs == [] then acc else Update(acc[fs[0].0 := Some(fs[0].1)], fs[1..])
  }

  /** A string literal written by `Quote` reads back as its value, whatever follows it. */
  lemma QuoteThenParse(v: string, after: string)
    ensures var s := Quote(v) + after; |s| > 0 && s[0] == '"' && ParseChars(s[1..]) == Some((v, after))
  {
    var s := Quote(v) + after;
    assert s[1..] == Escape(v) + ['"'] + after;
    ParseEscaped(v, after);
  }

  /** A string value written by `Quote` reads back as that value. */
  lemma ValueStep(v: string, after: string)
    ensures ParseValue(Quote(v) + after) == Some((Some(v), after))
  {
    QuoteThenParse(v, after);
  }

  /** `ParseMember` from its parts: a key literal, a colon, a value, white space skipped around them. */
  lemma ParseMemberParts(s: string, k: string, afterKey: string, value: Option<string>, after: string)
    requires |s| > 0 && s[0] == '"' && ParseChars(s[1..]) == Some((k, afterKey))
    requires |afterKey| > 0 && afterKey[0] == ':' && ParseValue(afterKey[1..]) == Some((value, after))
    requires |afterKey[1..]| > 0 && !IsJsonSpace(afterKey[1])
    ensures ParseMember(s) == Some((k, value, SkipSpace(after)))
  {
    assert SkipSpace(afterKey) == afterKey;
    assert SkipSpace(afterKey[1..]) == afterKey[1..];
  }

  /** One member written by `Member`, followed by text that does not start with white space. */
  lemma MemberStep(k: string, v: string, after: string)
    requires |after| > 0 && !IsJsonSpace(after[0])
    ensures ParseMember(Member(k, v) + after) == Some((k, Some(v), after))
  {
    var valueText := Quote(v) + after;
    var afterKey := [':'] + valueText;
    Assoc(Quote(k) + [':'], Quote(v), after);
    Assoc(Quote(k), [':'], valueText);
    QuoteThenParse(k, afterKey);
    assert afterKey[1..] == valueText;
    QuoteThenParse(v, after);
    ValueStep(v, after);
    ParseMemberParts(Member(k, v) + after, k, afterKey, Some(v), after);
  }

  /** `ParseMembers` on a member followed by the closing brace. */
  lemma MembersLast(k: string, v: string, acc: Members, tail: string)
    ensures ParseMembers(Member(k, v) + (['}'] + tail), acc) == Some((acc[k := Some(v)], tail))
  {
    MemberStep(k, v, ['}'] + tail);
    assert (['}'] + tail)[1..] == tail;
  }

  /** `ParseMembers` on a member followed by a comma goes on with the rest, the member recorded. */
  lemma MembersNext(k: string, v: string, acc: Members, rest: string)
    requires |rest| > 0 && rest[0] == '"'
    ensures ParseMembers(Member(k, v) + ([','] + rest), acc) == ParseMembers(rest, acc[k := Some(v)])
  {
    MemberStep(k, v, [','] + rest);
    assert ([','] + rest)[1..] == rest;
  }

  /** The text of a member list with more than one member: its first member, a comma, the rest. */
  lemma JoinSplit(fs: seq<(string, string)>, tail: string)
    requires |fs| > 0
    ensures |fs| == 1 ==> Join(fs) + ['}'] + tail == Member(fs[0].0, fs[0].1) + (['}'] + tail)
    ensures |fs| > 1 ==> Join(fs) + ['}'] + tail == Member(fs[0].0, fs[0].1) + ([','] + (Join(fs[1..]) + ['}'] + tail))
  {
    var m := Member(fs[0].0, fs[0].1);
    var close := ['}'] + tail;
    if |fs| == 1 {
      assert Join(fs) == m;
      Assoc(m, ['}'], tail);
    } else {
      var r := Join(fs[1..]);
      assert Join(fs) == m + ([','] + r);
      Assoc(m + ([','] + r), ['}'], tail);
      Assoc(m, [','] + r, close);
      Assoc([','], r, close);
      Assoc(r, ['}'], tail);
    }
  }

  lemma Assoc(a: string, b: string, c: string)
    ensures a + b + c == a + (b + c)
  {
  }

  lemma {:induction false} ParseJoin(fs: seq<(string, string)>, acc: Members, tail: string)
    requires |fs| > 0
    ensures ParseMembers(Join(fs) + ['}'] + tail, acc) == Some((Update(acc, fs), tail))
    decreases |fs|
  {
    var k, v := fs[0].0, fs[0].1;
    JoinSplit(fs, tail);
    if |fs| == 1 {
      MembersLast(k, v, acc, tail);
      assert fs[1..] == [];
    } else {
      var rest := Join(fs[1..]) + ['}'] + tail;
      JoinStart(fs[1..]);
      assert rest[0] == '"';
      MembersNext(k, v, acc, rest);
      ParseJoin(fs[1..], acc[k := Some(v)], tail);
    }
  }

  /** `Parse` of an object whose opening brace is followed directly by its members or its closing brace. */
  lemma ParseFromMembers(text: string, members: Members)
    requires |text| > 1 && text[0] == '{' && !IsJsonSpace(text[1])
    requires text[1] == '}' ==> text[2..] == [] && members == map[]
    requires text[1] != '}' ==> ParseMembers(text[1..], map[]) == Some((members, []))
    ensures Parse(text) == Some(RecordOf(members))
  {
    assert SkipSpace(text) == text;
    assert SkipSpace(text[1..]) == text[1..];
  }

  /** A member list's text starts with the opening quote of its first key. */
  lemma JoinStart(fs: seq<(string, string)>)
    requires |fs| > 0
    ensures |Join(fs)| > 0 && Join(fs)[0] == '"'
  {
    assert Quote(fs[0].0)[0] == '"';
    assert Member(fs[0].0, fs[0].1)[0] == '"';
  }

  /** An object written from the fields `fs` parses to the members `fs` lists. */
  lemma ParseObject(fs: seq<(string, string)>)
    ensures Parse(['{'] + (if fs == [] then [] else Join(fs)) + ['}']) == Some(RecordOf(Update(map[], fs)))
  {
    if fs == [] {
      ParseFromMembers(['{', '}'], map[]);
      assert ['{'] + [] + ['}'] == ['{', '}'];
    } else {
      var text := ['{'] + Join(fs) + ['}'];
      var body := Join(fs) + ['}'];
      Assoc(['{'], Join(fs), ['}']);
      assert text[1..] == body;
      JoinStart(fs);
      assert body == Join(fs) + ['}'] + [];
      ParseJoin(fs, map[], []);
      ParseFromMembers(text, Update(map[], fs));
    }
  }

  /** The navigation bar reads back exactly the record the sign-in page wrote. */
  lemma ParseSerialize(r: SessionRecord)
    ensures Parse(Serialize(r)) == Some(r)
  {
    ParseObject(Fields(r));
    FieldsUpdate(r);
  }

  lemma FieldsUpdate(r: SessionRecord)
    ensures RecordOf(Update(map[], Fields(r))) == r
  {
    var e := if r.email.Some? then [("email", r.email.value)] else [];
    var n := if r.name.Some? then [("name", r.name.value)] else [];
    var p := if r.picture.Some? then [("picture", r.picture.value)] else [];
    UpdateAppend(map[], e, n + p);
    UpdateAppend(Update(map[], e), n, p);
    assert Fields(r) == e + (n + p);
  }

  lemma {:induction false} UpdateAppend(acc: Members, xs: seq<(string, string)>, ys: seq<(string, string)>)
    ensures Update(acc, xs + ys) == Update(Update(acc, xs), ys)
    decreases |xs|
  {
    if xs != [] {
      assert (xs + ys)[1..] == xs[1..] + ys;
      UpdateAppend(acc[xs[0].0 := Some(xs[0].1)], xs[1..], ys);
    } else {
      assert xs + ys == ys;
    }
  }
}
