/** Reading a configuration line in place, in the buffer it was read into (conf_read_file in confdata.c). */
module ConfReader {
  import opened Tristates
  import opened ConfStrings

  /** The buffer holds the NUL-terminated string s at position p. */
  ghost predicate Holds(buf: seq<char>, p: nat, s: string) {
    && p + |s| < |buf| && buf[p + |s|] == NUL
    && forall i | 0 <= i < |s| :: s[i] == buf[p + i] && s[i] != NUL
  }

  lemma HoldsFrom(buf: seq<char>, p: nat, s: string, i: nat)
    requires Holds(buf, p, s) && i <= |s|
    ensures Holds(buf, p + i, s[i..])
  {}

  lemma {:induction false} BeforeAt(s: string, c: char, n: nat)
    requires n <= |s| && (forall i | 0 <= i < n :: s[i] != c) && (n < |s| ==> s[n] == c)
    ensures |Before(s, c)| == n
  {
    if n > 0 {
      BeforeAt(s[1..], c, n - 1);
    }
  }

  /** strchr(line + p, c). */
  method StrChr(line: array<char>, p: nat, c: char, ghost s: string) returns (k: Option<nat>)
    requires Holds(line[..], p, s) && c != NUL
    ensures k == if |Before(s, c)| < |s| then Some(p + |Before(s, c)|) else None
  {
    var i := 0;
    ghost var buf := line[..];
    assert buf[p + |s|] == line[p + |s|];
    while line[p + i] != NUL && line[p + i] != c
      invariant i <= |s| && forall j | 0 <= j < i :: s[j] != c
      decreases |s| - i
    {
      assert buf[p + i] == line[p + i];
      i := i + 1;
    }
    assert i < |s| ==> s[i] == buf[p + i];
    BeforeAt(s, c, i);
    k := if line[p + i] == NUL then None else Some(p + i);
  }

  /** What stands before the first quote or backslash. */
  function Plain(s: string): (n: nat)
    ensures n <= |s| && (forall i | 0 <= i < n :: !Special(s[i])) && (n < |s| ==> Special(s[n]))
  {
    if s == "" || Special(s[0]) then 0 else 1 + Plain(s[1..])
  }

  lemma {:induction false} PlainAt(s: string, n: nat)
    requires n <= |s| && (forall i | 0 <= i < n :: !Special(s[i])) && (n < |s| ==> Special(s[n]))
    ensures Plain(s) == n
  {
    if n > 0 {
      PlainAt(s[1..], n - 1);
    }
  }

  /** strpbrk(line + p, "\"\\"). */
  method StrPbrk(line: array<char>, p: nat, ghost s: string) returns (k: Option<nat>)
    requires Holds(line[..], p, s)
    ensures k == if Plain(s) < |s| then Some(p + Plain(s)) else None
  {
    var i := 0;
    ghost var buf := line[..];
    assert buf[p + |s|] == line[p + |s|];
    while line[p + i] != NUL && !Special(line[p + i])
      invariant i <= |s| && forall j | 0 <= j < i :: !Special(s[j])
      decreases |s| - i
    {
      assert buf[p + i] == line[p + i];
      i := i + 1;
    }
    assert i < |s| ==> s[i] == buf[p + i];
    PlainAt(s, i);
    k := if line[p + i] == NUL then None else Some(p + i);
  }

  lemma NotTheEnd(buf: seq<char>, p: nat, s: string, n: nat)
    requires Holds(buf, p, s) && n < |s|
    ensures buf[p + n] != NUL
  {
    assert s[n] == buf[p + n];
  }

  method StrLen(line: array<char>, p: nat, ghost s: string) returns (n: nat)
    requires Holds(line[..], p, s)
    ensures n == |s|
  {
    n := 0;
    ghost var buf := line[..];
    assert buf[p + |s|] == line[p + |s|];
    while line[p + n] != NUL
      invariant n <= |s|
      decreases |s| - n
    {
      assert buf[p + n] == line[p + n];
      n := n + 1;
    }
    if n < |s| {
      NotTheEnd(buf, p, s, n);
    }
  }

  /** memmove(line + p, line + p + 1, strlen(line + p)): the character at p goes, the rest moves up. */
  method Remove(line: array<char>, p: nat, ghost s: string)
    requires Holds(line[..], p, s) && s != ""
    modifies line
    ensures Holds(line[..], p, s[1..]) && line[p + |s|] == NUL
    ensures forall i | 0 <= i < p :: line[i] == old(line[i])
  {
    var n := StrLen(line, p, s);
    ghost var buf := line[..];
    forall i | p <= i < p + n {
      line[i] := line[i + 1];
    }
    forall i | 0 <= i < |s[1..]| ensures s[1..][i] == line[..][p + i] && s[1..][i] != NUL {
      assert s[i + 1] == buf[p + i + 1];
    }
  }

  // ----- the loop that takes out the backslashes -----

  lemma {:induction false} UnescapeSkip(s: string)
    ensures Unescape(s) == Prepend(s[..Plain(s)], Unescape(s[Plain(s)..]))
  {
    if s == "" || Special(s[0]) {
      assert s[0..] == s;
      PrependNothing(Unescape(s));
      assert s[..0] == "";
    } else {
      var n := Plain(s);
      UnescapeSkip(s[1..]);
      PrependTwice([s[0]], s[1..][..n - 1], Unescape(s[1..][n - 1..]));
      assert s[1..][n - 1..] == s[n..];
      assert [s[0]] + s[1..][..n - 1] == s[..n];
    }
  }

  lemma PrependNothing(t: Option<string>)
    ensures Prepend("", t) == t
  {
    if t.Some? {
      assert "" + t.value == t.value;
    }
  }

  lemma PrependTwice(a: string, b: string, t: Option<string>)
    ensures Prepend(a, Prepend(b, t)) == Prepend(a + b, t)
  {
    if t.Some? {
      assert a + (b + t.value) == a + b + t.value;
    }
  }

  lemma {:induction false} UnescapeChars(s: string, c: char)
    requires Unescape(s).Some? && c in Unescape(s).value
    ensures c in s
  {
    if s[0] == BACKSLASH {
      if c != s[1] {
        UnescapeChars(s[2..], c);
      }
    } else if c != s[0] {
      UnescapeChars(s[1..], c);
    }
  }

  /** The text read so far and the text still to be read make up the whole. */
  predicate Between(s: string, done: string, rest: string) {
    Unescape(s) == Prepend(done, Unescape(rest))
  }

  lemma SkipPlain(s: string, done: string, rest: string)
    requires Between(s, done, rest)
    ensures Between(s, done + rest[..Plain(rest)], rest[Plain(rest)..])
  {
    var n := Plain(rest);
    UnescapeSkip(rest);
    PrependTwice(done, rest[..n], Unescape(rest[n..]));
  }

  lemma AtQuote(s: string, done: string, rest: string)
    requires Between(s, done, rest) && rest != "" && rest[0] == QUOTE
    ensures Unescape(s) == Some(done)
  {
    assert done + "" == done;
  }

  lemma AtBackslash(s: string, done: string, rest: string)
    requires Between(s, done, rest) && rest != "" && rest[0] == BACKSLASH
    ensures if |rest| == 1 then Unescape(s) == None else Between(s, done + [rest[1]], rest[2..])
  {
    if |rest| > 1 {
      PrependTwice(done, [rest[1]], Unescape(rest[2..]));
    }
  }

  /** The text before position p is what has been decoded so far. */
  ghost predicate Decoded(buf: seq<char>, start: nat, p: nat, done: string) {
    start + |done| == p <= |buf| && forall i | 0 <= i < |done| :: done[i] == buf[start + i]
  }

  lemma DecodedIsHeld(buf: seq<char>, start: nat, s: string, done: string)
    requires NUL !in s && Unescape(s) == Some(done)
    requires start + |done| < |buf| && Decoded(buf, start, start + |done|, done) && buf[start + |done|] == NUL
    ensures Holds(buf, start, done)
  {
    forall i | 0 <= i < |done| ensures done[i] == buf[start + i] && done[i] != NUL {
      UnescapeChars(s, done[i]);
    }
  }

  lemma DecodeMore(buf: seq<char>, start: nat, p: nat, done: string, rest: string, n: nat)
    requires Decoded(buf, start, p, done) && Holds(buf, p, rest) && n <= |rest|
    ensures Decoded(buf, start, p + n, done + rest[..n]) && Holds(buf, p + n, rest[n..])
  {
    var more := done + rest[..n];
    forall i | 0 <= i < |more| ensures more[i] == buf[start + i] {
      if i >= |done| {
        assert rest[i - |done|] == buf[p + (i - |done|)];
      }
    }
  }

  /** A backslash goes, and the character behind it is passed over whatever it is. */
  method DropBackslash(line: array<char>, start: nat, p: nat, ghost s: string, ghost done: string, ghost rest: string)
      returns (ghost done': string, ghost rest': string)
    requires Decoded(line[..], start, p, done) && Holds(line[..], p, rest) && rest != "" && rest[0] == BACKSLASH
    requires Between(s, done, rest)
    modifies line
    ensures Decoded(line[..], start, p + 1, done') && Holds(line[..], p + 1, rest')
    ensures Between(s, done', rest') && |rest'| < |rest|
    ensures forall i | 0 <= i < p :: line[i] == old(line[i])
  {
    ghost var buf := line[..];
    Remove(line, p, rest);
    AtBackslash(s, done, rest);
    if |rest| > 1 {
      done', rest' := done + [rest[1]], rest[2..];
      assert rest[1..][0] == line[..][p];
      HoldsFrom(line[..], p, rest[1..], 1);
      assert rest[1..][1..] == rest[2..];
    } else {
      done', rest' := done + [NUL], "";
    }
    forall i | 0 <= i < |done| ensures done[i] == line[..][start + i] {
      assert done[i] == buf[start + i];
    }
  }

  /** What the loop keeps: decoded text before p, unread text from p on, and nothing changed before `start`. */
  ghost predicate Unescaping(was: seq<char>, buf: seq<char>, start: nat, p: nat, s: string, done: string,
                             rest: string) {
    && Holds(buf, p, rest) && Decoded(buf, start, p, done) && Between(s, done, rest)
    && |was| == |buf| && forall i | 0 <= i < start && i < |buf| :: buf[i] == was[i]
  }

  lemma MoveTo(was: seq<char>, buf: seq<char>, start: nat, p: nat, s: string, done: string, rest: string)
    requires Unescaping(was, buf, start, p, s, done, rest)
    ensures var n := Plain(rest); Unescaping(was, buf, start, p + n, s, done + rest[..n], rest[n..])
  {
    SkipPlain(s, done, rest);
    DecodeMore(buf, start, p, done, rest, Plain(rest));
  }

  /** The loop ends at a quote, which is overwritten by a NUL. */
  method CloseAt(line: array<char>, start: nat, p: nat, ghost s: string, ghost done: string, ghost rest: string)
    requires NUL !in s && rest != "" && rest[0] == QUOTE
    requires Unescaping(line[..], line[..], start, p, s, done, rest)
    modifies line
    ensures Unescape(s) == Some(done) && Holds(line[..], start, done)
    ensures forall i | 0 <= i < start :: line[i] == old(line[i])
  {
    AtQuote(s, done, rest);
    ghost var buf := line[..];
    line[p] := NUL;
    forall i | 0 <= i < |done| ensures done[i] == line[..][start + i] {
      assert done[i] == buf[start + i];
    }
    DecodedIsHeld(line[..], start, s, done);
  }

  /**
   * The for loop of conf_read_file. The decoded text grows from `start` up to the reading position; the text that is
   * still to be read stands right behind it.
   */
  method UnescapeInPlace(line: array<char>, start: nat, ghost s: string) returns (ok: bool)
    requires Holds(line[..], start, s)
    modifies line
    ensures forall i | 0 <= i < start :: line[i] == old(line[i])
    ensures ok <==> Unescape(s).Some?
    ensures ok ==> Holds(line[..], start, Unescape(s).value)
  {
    ghost var was := line[..];
    var p: nat := start;
    ghost var done, rest := "", s;
    PrependNothing(Unescape(s));
    var found := StrPbrk(line, p, rest);
    while found.Some?
      invariant Unescaping(was, line[..], start, p, s, done, rest)
      invariant found == if Plain(rest) < |rest| then Some(p + Plain(rest)) else None
      decreases |rest|
    {
      MoveTo(was, line[..], start, p, s, done, rest);
      p, done, rest := found.value, done + rest[..Plain(rest)], rest[Plain(rest)..];
      assert rest[0] == line[..][p];
      if line[p] == QUOTE {
        CloseAt(line, start, p, s, done, rest);
        return true;
      }
      done, rest := DropBackslash(line, start, p, s, done, rest);
      p := p + 1;
      found := StrPbrk(line, p, rest);
    }
    SkipPlain(s, done, rest);
    assert rest[Plain(rest)..] == "";
    ok := false;
  }

  // ----- the whole line -----

  /** The C string at position p. */
  method CString(line: array<char>, p: nat, ghost s: string) returns (r: string)
    requires Holds(line[..], p, s)
    ensures r == s
  {
    var n := StrLen(line, p, s);
    r := line[p..p + n];
    forall i | 0 <= i < n ensures r[i] == s[i] {
      assert s[i] == line[..][p + i];
    }
  }

  /** memcmp(line, "CONFIG_", 7), stopping at the end of a shorter line. */
  method HasPrefix(line: array<char>, ghost s: string) returns (b: bool)
    requires Holds(line[..], 0, s)
    ensures b <==> PREFIX <= s
  {
    var k := 0;
    ghost var buf := line[..];
    var prefix := PREFIX;
    while k < |prefix|
      invariant k <= |prefix| && k <= |s| && forall i | 0 <= i < k :: s[i] == prefix[i]
    {
      if k < |s| {
        NotTheEnd(buf, 0, s, k);
        assert s[k] == buf[0 + k];
      }
      if line[k] != prefix[k] {
        assert line[k] == buf[k] && (k < |s| ==> s[k] != prefix[k]);
        return false;
      }
      k := k + 1;
    }
    b := true;
  }

  /** Writing a NUL ends the string there. */
  lemma CutHolds(buf: seq<char>, p: nat, s: string, n: nat)
    requires Holds(buf, p, s) && n <= |s|
    ensures Holds(buf[p + n := NUL], p, s[..n])
  {
    var cut := buf[p + n := NUL];
    forall i | 0 <= i < n ensures s[..n][i] == cut[p + i] && s[..n][i] != NUL {
      assert s[i] == buf[p + i];
    }
  }

  /** A newline ends the text. */
  method CutLine(line: array<char>, p: nat, ghost s: string)
    requires Holds(line[..], p, s)
    modifies line
    ensures Holds(line[..], p, Before(s, NEWLINE))
  {
    var end := StrChr(line, p, NEWLINE, s);
    if end.Some? {
      CutHolds(line[..], p, s, |Before(s, NEWLINE)|);
      line[end.value] := NUL;
    }
  }

  method StartsQuoted(line: array<char>, p: nat, ghost text: string) returns (b: bool)
    requires Holds(line[..], p, text)
    ensures b <==> text != "" && text[0] == QUOTE
  {
    assert line[p] == line[..][p + 0];
    assert text != "" ==> text[0] == line[..][p + 0];
    b := line[p] == QUOTE;
  }

  /** The part of conf_read_file behind the '=': cut the newline off, check for the quote, take the backslashes out. */
  method ReadValue(line: array<char>, p: nat, name: string, ghost s: string) returns (r: ReadResult)
    requires Holds(line[..], p, s)
    modifies line
    ensures r == ParseValue(name, s)
  {
    ghost var text := Before(s, NEWLINE);
    CutLine(line, p, s);
    var quoted := StartsQuoted(line, p, text);
    if !quoted {
      return NotQuoted(name);
    }
    HoldsFrom(line[..], p, text, 1);
    var ok := UnescapeInPlace(line, p + 1, text[1..]);
    if !ok {
      return Unterminated(name);
    }
    var value := CString(line, p + 1, Unescape(text[1..]).value);
    r := Read(name, value);
  }

  /** conf_read_file on a buffered line that sets a string symbol. */
  method ReadLine(line: array<char>, ghost s: string) returns (r: ReadResult)
    requires Holds(line[..], 0, s)
    modifies line
    ensures r == Parse(s)
  {
    var known := HasPrefix(line, s);
    if !known {
      return Unexpected;
    }
    var start := |PREFIX|;
    HoldsFrom(line[..], 0, s, start);
    ghost var rest := s[start..];
    var equals := StrChr(line, start, '=', rest);
    if equals.None? {
      return NoEquals;
    }
    ghost var name := Before(rest, '=');
    HoldsFrom(line[..], start, rest, |name| + 1);
    CutHolds(line[..], start, rest, |name|);
    line[equals.value] := NUL;
    var n := CString(line, start, name);
    assert Holds(line[..], equals.value + 1, rest[|name| + 1..]);
    r := ReadValue(line, equals.value + 1, n, rest[|name| + 1..]);
  }

  /** fgets into the whole buffer. */
  method GetLine(text: string, line: array<char>)
    requires line.Length > 0 && NUL !in text
    modifies line
    ensures Holds(line[..], 0, TakeLine(text, line.Length - 1))
  {
    var i := 0;
    while i < line.Length - 1 && i < |text| && (i == 0 || line[i - 1] != NEWLINE)
      invariant i <= line.Length - 1 && i <= |text|
      invariant forall j | 0 <= j < i :: line[j] == text[j]
      invariant forall j | 0 <= j < i - 1 :: text[j] != NEWLINE
    {
      line[i] := text[i];
      i := i + 1;
    }
    line[i] := NUL;
    TakenSoFar(text, line.Length - 1, i);
  }

  lemma {:induction false} TakenSoFar(text: string, k: nat, i: nat)
    requires i <= k && i <= |text| && forall j | 0 <= j < i - 1 :: text[j] != NEWLINE
    requires i == k || i == |text| || (i > 0 && text[i - 1] == NEWLINE)
    ensures TakeLine(text, k) == text[..i]
  {
    if k > 0 && text != "" && text[0] != NEWLINE {
      assert text[1..][..i - 1] == text[1..i];
      TakenSoFar(text[1..], k - 1, i - 1);
      assert text[..i] == [text[0]] + text[1..i];
    }
  }

  /** Written by conf_write, read by conf_read_file: the same string, exactly when it has no newline and fits. */
  method WriteThenRead(name: string, value: string, following: string) returns (r: ReadResult)
    requires PlainName(name) && NUL !in name && NUL !in value && NUL !in following
    ensures r == Read(name, value) <==> NEWLINE !in value && |Line(name, value)| <= BUFFER - 1
  {
    var out := WriteString(name, value);
    EscapeKeeps(value, NUL);
    var line := new char[BUFFER];
    assert out + following == Line(name, value) + ([NEWLINE] + following);
    GetLine(out + following, line);
    r := ReadLine(line, TakeLine(out + following, BUFFER - 1));
    RoundTrip(name, value, following);
  }
}
