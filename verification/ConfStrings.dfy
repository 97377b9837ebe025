/** Writing string values to the configuration file and reading them back (confdata.c). */
module ConfStrings {
  import opened Tristates

  const NUL: char := '\0'
  const QUOTE: char := '"'
  const BACKSLASH: char := '\\'
  const NEWLINE: char := '\n'
  const PREFIX: string := "CONFIG_"
  const BUFFER := 1024

  predicate Special(c: char) {
    c == QUOTE || c == BACKSLASH
  }

  // ----- what is written -----

  function Escape(s: string): string {
    if s == "" then ""
    else (if Special(s[0]) then [BACKSLASH, s[0]] else [s[0]]) + Escape(s[1..])
  }

  function Head(name: string): string {
    PREFIX + name + ['=', QUOTE]
  }

  /** The line written for a string symbol, without its final newline. */
  function Line(name: string, value: string): string {
    Head(name) + Escape(value) + [QUOTE]
  }

  lemma {:induction false} EscapeAppend(s: string, t: string)
    ensures Escape(s + t) == Escape(s) + Escape(t)
  {
    if s == "" {
      assert s + t == t;
    } else {
      assert (s + t)[1..] == s[1..] + t;
      EscapeAppend(s[1..], t);
    }
  }

  lemma {:induction false} EscapePlain(s: string)
    requires forall c | c in s :: !Special(c)
    ensures Escape(s) == s
  {
    if s != "" {
      EscapePlain(s[1..]);
    }
  }

  lemma EscapeStretch(s: string, i: nat, l: nat)
    requires i <= l <= |s| && forall k | i <= k < l :: !Special(s[k])
    ensures Escape(s[..l]) == Escape(s[..i]) + s[i..l]
  {
    assert s[..l] == s[..i] + s[i..l];
    EscapeAppend(s[..i], s[i..l]);
    EscapePlain(s[i..l]);
  }

  lemma EscapeOne(s: string, i: nat)
    requires i < |s| && Special(s[i])
    ensures Escape(s[..i + 1]) == Escape(s[..i]) + [BACKSLASH, s[i]]
  {
    assert s[..i + 1] == s[..i] + [s[i]];
    EscapeAppend(s[..i], [s[i]]);
    assert Escape([s[i]]) == [BACKSLASH, s[i]] + Escape([s[i]][1..]);
  }

  /** strcspn(s + i, "\"\\"), as the index where the stretch ends. */
  method StretchEnd(s: string, i: nat) returns (l: nat)
    requires i <= |s|
    ensures i <= l <= |s| && (forall k | i <= k < l :: !Special(s[k])) && (l < |s| ==> Special(s[l]))
  {
    l := i;
    while l < |s| && !Special(s[l])
      invariant i <= l <= |s| && forall k | i <= k < l :: !Special(s[k])
    {
      l := l + 1;
    }
  }

  /** The inner loop of conf_write: a run of special characters, each with a backslash. */
  method WriteSpecials(s: string, from: nat, before: string) returns (i: nat, out: string)
    requires from <= |s| && before == Escape(s[..from])
    ensures from <= i <= |s| && out == Escape(s[..i])
    ensures from < |s| && Special(s[from]) ==> from < i
  {
    i, out := from, before;
    while i < |s| && Special(s[i])
      invariant from <= i <= |s| && out == Escape(s[..i])
      invariant i == from ==> out == before
    {
      out := out + [BACKSLASH, s[i]];
      EscapeOne(s, i);
      i := i + 1;
    }
  }

  /** The loop of conf_write for a string symbol: stretches without special characters go out as they are. */
  method WriteString(name: string, value: string) returns (out: string)
    ensures out == Line(name, value) + [NEWLINE]
  {
    out := "";
    var i := 0;
    while i < |value|
      invariant i <= |value| && out == Escape(value[..i])
    {
      var l := StretchEnd(value, i);
      out := out + value[i..l];
      EscapeStretch(value, i, l);
      i, out := WriteSpecials(value, l, out);
    }
    assert value[..|value|] == value;
    out := PREFIX + name + ['=', QUOTE] + out + [QUOTE, NEWLINE];
    assert [QUOTE, NEWLINE] == [QUOTE] + [NEWLINE];
  }

  // ----- what is read -----

  /** A buffer full of text: up to and including the first newline, at most k characters. */
  function TakeLine(text: string, k: nat): string {
    if k == 0 || text == "" then ""
    else if text[0] == NEWLINE then [NEWLINE]
    else [text[0]] + TakeLine(text[1..], k - 1)
  }

  /** What stands before the first occurrence of a character. */
  function Before(s: string, c: char): (r: string)
    ensures r <= s && c !in r && (|r| < |s| ==> s[|r|] == c)
  {
    if s == "" || s[0] == c then "" else [s[0]] + Before(s[1..], c)
  }

  /** The text up to the closing quote, without the backslashes; nothing when there is no closing quote. */
  function Unescape(s: string): Option<string> {
    if s == "" then None
    else if s[0] == QUOTE then Some("")
    else if s[0] == BACKSLASH then
      if |s| == 1 then None else Prepend([s[1]], Unescape(s[2..]))
    else Prepend([s[0]], Unescape(s[1..]))
  }

  function Prepend(s: string, t: Option<string>): Option<string> {
    if t.None? then None else Some(s + t.value)
  }

  datatype ReadResult =
    | Unexpected
    | NoEquals
    | NotQuoted(name: string)
    | Unterminated(name: string)
    | Read(name: string, value: string)

  /** The value of a string symbol: quoted text, up to the end of the line. */
  function ParseValue(name: string, after: string): ReadResult {
    var text := Before(after, NEWLINE);
    if text == "" || text[0] != QUOTE then NotQuoted(name)
    else
      var value := Unescape(text[1..]);
      if value.None? then Unterminated(name) else Read(name, value.value)
  }

  function ParseAssignment(rest: string): ReadResult {
    var name := Before(rest, '=');
    if |name| == |rest| then NoEquals else ParseValue(name, rest[|name| + 1..])
  }

  /** What conf_read_file makes of a buffered line for a string symbol. */
  function Parse(line: string): ReadResult {
    if PREFIX <= line then ParseAssignment(line[|PREFIX|..]) else Unexpected
  }

  // ----- what is written is read back -----

  lemma Associate(a: string, b: string, c: string)
    ensures a + b + c == a + (b + c)
  {}

  lemma UnescapePlain(c: char, t: string)
    requires !Special(c)
    ensures Unescape([c] + t) == Prepend([c], Unescape(t))
  {
    assert ([c] + t)[1..] == t;
  }

  lemma UnescapeSpecial(c: char, t: string)
    ensures Unescape([BACKSLASH, c] + t) == Prepend([c], Unescape(t))
  {
    assert ([BACKSLASH, c] + t)[2..] == t;
  }

  /** The escaped text and a closing quote give back the string, whatever follows. */
  lemma {:induction false} UnescapeEscape(s: string, rest: string)
    ensures Unescape(Escape(s) + ([QUOTE] + rest)) == Some(s)
  {
    if s == "" {
      assert Escape(s) + ([QUOTE] + rest) == [QUOTE] + rest;
    } else {
      UnescapeEscape(s[1..], rest);
      var tail := Escape(s[1..]) + ([QUOTE] + rest);
      assert [s[0]] + s[1..] == s;
      if Special(s[0]) {
        Associate([BACKSLASH, s[0]], Escape(s[1..]), [QUOTE] + rest);
        UnescapeSpecial(s[0], tail);
      } else {
        Associate([s[0]], Escape(s[1..]), [QUOTE] + rest);
        UnescapePlain(s[0], tail);
      }
    }
  }

  /** Cut off anywhere before the closing quote, it gives nothing. */
  lemma {:induction false} UnescapeCut(s: string, k: nat)
    requires k <= |Escape(s)|
    ensures Unescape(Escape(s)[..k]) == None
  {
    if s != "" && k > 0 {
      var e := Escape(s)[..k];
      if Special(s[0]) {
        if k > 1 {
          assert e[2..] == Escape(s[1..])[..k - 2];
          UnescapeCut(s[1..], k - 2);
        }
      } else {
        assert e[1..] == Escape(s[1..])[..k - 1];
        UnescapeCut(s[1..], k - 1);
      }
    }
  }

  lemma {:induction false} BeforeSplit(a: string, c: char, b: string)
    requires c !in a
    ensures Before(a + [c] + b, c) == a
  {
    if a == "" {
      assert a + [c] + b == [c] + b;
    } else {
      assert (a + [c] + b)[1..] == a[1..] + [c] + b;
      BeforeSplit(a[1..], c, b);
    }
  }

  lemma {:induction false} BeforeWhole(a: string, c: char)
    requires c !in a
    ensures Before(a, c) == a
  {
    if a != "" {
      BeforeWhole(a[1..], c);
    }
  }

  /** Reading takes plain text as far as the buffer goes. */
  lemma {:induction false} TakePlain(a: string, b: string, k: nat)
    requires NEWLINE !in a
    ensures TakeLine(a + b, k) == if k <= |a| then a[..k] else a + TakeLine(b, k - |a|)
  {
    if a == "" {
      assert a + b == b;
    } else if k > 0 {
      assert (a + b)[1..] == a[1..] + b;
      TakePlain(a[1..], b, k - 1);
      assert a == [a[0]] + a[1..];
    }
  }

  /** The text before the end of the line, whether or not the newline made it into the buffer. */
  predicate LineEnd(x: string) {
    x == "" || x == [NEWLINE]
  }

  lemma BeforeEnd(a: string, x: string)
    requires NEWLINE !in a && LineEnd(x)
    ensures Before(a + x, NEWLINE) == a
  {
    if x == "" {
      assert a + x == a;
      BeforeWhole(a, NEWLINE);
    } else {
      assert a + x == a + [NEWLINE] + "";
      BeforeSplit(a, NEWLINE, "");
    }
  }

  /** A symbol name: no '=' and no newline in it. */
  predicate PlainName(name: string) {
    '=' !in name && NEWLINE !in name
  }

  lemma ParsePrefix(rest: string)
    ensures Parse(PREFIX + rest) == ParseAssignment(rest)
  {
    var p := PREFIX;
    assert (p + rest)[|p|..] == rest && p <= p + rest;
  }

  lemma ParseName(name: string, after: string)
    requires '=' !in name
    ensures ParseAssignment(name + ['='] + after) == ParseValue(name, after)
  {
    BeforeSplit(name, '=', after);
    assert (name + ['='] + after)[|name| + 1..] == after;
  }

  lemma ParseQuoted(name: string, text: string, x: string)
    requires NEWLINE !in text && LineEnd(x)
    ensures ParseValue(name, [QUOTE] + text + x) ==
            if Unescape(text).None? then Unterminated(name) else Read(name, Unescape(text).value)
  {
    BeforeEnd([QUOTE] + text, x);
    assert ([QUOTE] + text)[1..] == text;
  }

  lemma HeadApart(name: string, text: string)
    ensures Head(name) + text == PREFIX + (name + ['='] + ([QUOTE] + text))
  {
    var p := PREFIX;
    assert p + name + ['=', QUOTE] + text == p + (name + ['='] + ([QUOTE] + text));
  }

  lemma ParseHead(name: string, text: string, x: string)
    requires PlainName(name) && NEWLINE !in text && LineEnd(x)
    ensures Parse(Head(name) + (text + x)) ==
            if Unescape(text).None? then Unterminated(name) else Read(name, Unescape(text).value)
  {
    HeadApart(name, text + x);
    ParsePrefix(name + ['='] + ([QUOTE] + (text + x)));
    ParseName(name, [QUOTE] + (text + x));
    assert [QUOTE] + (text + x) == [QUOTE] + text + x;
    ParseQuoted(name, text, x);
  }

  lemma {:induction false} EscapeKeeps(s: string, c: char)
    requires !Special(c)
    ensures c in Escape(s) <==> c in s
  {
    if s != "" {
      EscapeKeeps(s[1..], c);
    }
  }

  /** A line cut off inside the name or before the opening quote. */
  lemma CutInHead(name: string, k: nat, x: string)
    requires PlainName(name) && k < |Head(name)| && LineEnd(x)
    ensures !Parse(Head(name)[..k] + x).Read?
  {
    var line := Head(name)[..k] + x;
    if PREFIX <= line {
      var rest := line[|PREFIX|..];
      if k <= |PREFIX| + |name| {
        assert forall i | 0 <= i < |rest| :: rest[i] in name || rest[i] in x;
        BeforeWhole(rest, '=');
      } else {
        CutBeforeQuote(name, x);
        assert Head(name)[..k] == PREFIX + name + ['='] by { CutHead(PREFIX, name, k); }
        assert line == PREFIX + (name + ['='] + x);
        ParsePrefix(name + ['='] + x);
      }
    }
  }

  lemma CutHead(p: string, name: string, k: nat)
    requires k == |p| + |name| + 1
    ensures (p + name + ['=', QUOTE])[..k] == p + name + ['=']
  {}

  lemma CutBeforeQuote(name: string, x: string)
    requires PlainName(name) && LineEnd(x)
    ensures !ParseAssignment(name + ['='] + x).Read?
  {
    ParseName(name, x);
    assert "" + x == x;
    BeforeEnd("", x);
  }

  /** A line cut off before the closing quote is not read as a value. */
  lemma CutIsNotRead(name: string, a: string, k: nat, x: string)
    requires PlainName(name) && NEWLINE !in a && k <= |Head(name)| + |Escape(a)| && LineEnd(x)
    ensures !Parse((Head(name) + Escape(a))[..k] + x).Read?
  {
    var head, e := Head(name), Escape(a);
    if k >= |head| {
      var j := k - |head|;
      EscapeKeeps(a, NEWLINE);
      assert (head + e)[..k] + x == head + (e[..j] + x);
      UnescapeCut(a, j);
      ParseHead(name, e[..j], x);
    } else {
      assert (head + e)[..k] == head[..k];
      CutInHead(name, k, x);
    }
  }

  lemma LineIsPlain(name: string, value: string)
    requires PlainName(name) && NEWLINE !in value
    ensures NEWLINE !in Escape(value) + [QUOTE] && NEWLINE !in Line(name, value)
  {
    EscapeKeeps(value, NEWLINE);
  }

  lemma TakeFitting(line: string, rest: string, k: nat) returns (x: string)
    requires NEWLINE !in line && |line| <= k
    ensures LineEnd(x) && TakeLine(line + ([NEWLINE] + rest), k) == line + x
  {
    TakePlain(line, [NEWLINE] + rest, k);
    if k == |line| {
      x := "";
      assert line[..k] == line + x;
    } else {
      x := TakeLine([NEWLINE] + rest, k - |line|);
    }
  }

  lemma WholeLineIsRead(name: string, value: string, x: string)
    requires PlainName(name) && NEWLINE !in value && LineEnd(x)
    ensures Parse(Line(name, value) + x) == Read(name, value)
  {
    var head, body := Head(name), Escape(value) + [QUOTE];
    LineIsPlain(name, value);
    UnescapeEscape(value, "");
    assert Escape(value) + ([QUOTE] + "") == body;
    ParseHead(name, body, x);
    assert Line(name, value) + x == head + (body + x);
  }

  lemma FittingLineIsRead(name: string, value: string, rest: string)
    requires PlainName(name) && NEWLINE !in value && |Line(name, value)| <= BUFFER - 1
    ensures Parse(TakeLine(Line(name, value) + ([NEWLINE] + rest), BUFFER - 1)) == Read(name, value)
  {
    LineIsPlain(name, value);
    var x := TakeFitting(Line(name, value), rest, BUFFER - 1);
    WholeLineIsRead(name, value, x);
  }

  /** Text in front of a newline or of more than the buffer holds. */
  lemma CutLineIsNotRead(name: string, a: string, tail: string)
    requires PlainName(name) && NEWLINE !in a
    requires (tail != "" && tail[0] == NEWLINE) || |Head(name)| + |Escape(a)| >= BUFFER - 1
    ensures !Parse(TakeLine(Head(name) + Escape(a) + tail, BUFFER - 1)).Read?
  {
    var head := Head(name) + Escape(a);
    EscapeKeeps(a, NEWLINE);
    TakePlain(head, tail, BUFFER - 1);
    if BUFFER - 1 <= |head| {
      CutIsNotRead(name, a, BUFFER - 1, "");
      assert head[..BUFFER - 1] + "" == head[..BUFFER - 1];
    } else {
      CutIsNotRead(name, a, |head|, [NEWLINE]);
      assert head[..|head|] == head;
    }
  }

  lemma Regroup(h: string, a: string, n: string, b: string, q: string, rest: string)
    ensures h + (a + (n + b)) + q + rest == h + a + (n + (b + q + rest))
  {}

  lemma LineAtNewline(name: string, a: string, b: string, rest: string)
    ensures Line(name, a + ([NEWLINE] + b)) + rest ==
            Head(name) + Escape(a) + ([NEWLINE] + (Escape(b) + [QUOTE] + rest))
  {
    EscapeAppend(a, [NEWLINE] + b);
    assert Escape([NEWLINE] + b) == [NEWLINE] + Escape(b) by { assert ([NEWLINE] + b)[1..] == b; }
    Regroup(Head(name), Escape(a), [NEWLINE], Escape(b), [QUOTE], rest);
  }

  /** A written value is read back unchanged exactly when it has no newline and its line fits the buffer. */
  lemma RoundTrip(name: string, value: string, rest: string)
    requires PlainName(name)
    ensures Parse(TakeLine(Line(name, value) + ([NEWLINE] + rest), BUFFER - 1)) == Read(name, value) <==>
            NEWLINE !in value && |Line(name, value)| <= BUFFER - 1
  {
    var a := Before(value, NEWLINE);
    if NEWLINE in value {
      var b := value[|a| + 1..];
      assert value == a + ([NEWLINE] + b);
      var after := [NEWLINE] + rest;
      LineAtNewline(name, a, b, after);
      CutLineIsNotRead(name, a, [NEWLINE] + (Escape(b) + [QUOTE] + after));
    } else if |Line(name, value)| <= BUFFER - 1 {
      FittingLineIsRead(name, value, rest);
    } else {
      var head, e := Head(name), Escape(value);
      assert head + e + [QUOTE] + ([NEWLINE] + rest) == head + e + ([QUOTE] + ([NEWLINE] + rest));
      CutLineIsNotRead(name, value, [QUOTE] + ([NEWLINE] + rest));
    }
  }
}
