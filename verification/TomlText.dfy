/** Writing strings for the configuration file, and a reader of TOML basic strings that undoes it. */
module TomlText {
  import opened Wrappers

  // ---------------------------------------------------------------- the writer

  /** Each character of `s` replaced by the text `f` gives for it. */
  function FlatMap(s: string, f: char -> string): string {
    if |s| == 0 then "" else f(s[0]) + FlatMap(s[1..], f)
  }

  /** `str.replace` of a single character. */
  function Replace(s: string, c: char, with: string): string { FlatMap(s, Only(c, with)) }

  function Only(c: char, with: string): char -> string { x => if x == c then with else [x] }

  function HexDigit(n: nat): char
    requires n < 16
  {
    "0123456789abcdef"[n]
  }

  predicate Control(c: char) { c < ' ' }

  /** The four lower-case hexadecimal digits of a control character. */
  function Hex4(c: char): string
    requires Control(c)
  {
    ['0', '0', HexDigit(c as int / 16), HexDigit(c as int % 16)]
  }

  function EscapeControl(c: char): string { if Control(c) then "\\u" + Hex4(c) else [c] }

  /** The five replacements in order, then the control characters, then the quotes. */
  function Quote(s: string): string {
    var escaped :=
      Replace(Replace(Replace(Replace(Replace(s, '\\', "\\\\"), '"', "\\\""), '\n', "\\n"), '\r', "\\r"), '\t', "\\t");
    "\"" + FlatMap(escaped, EscapeControl) + "\""
  }

  function Join(parts: seq<string>): string {
    if |parts| == 0 then "" else if |parts| == 1 then parts[0] else parts[0] + ", " + Join(parts[1..])
  }

  function QuoteAll(values: seq<string>): (r: seq<string>)
    ensures |r| == |values|
  {
    if |values| == 0 then [] else [Quote(values[0])] + QuoteAll(values[1..])
  }

  function QuoteList(values: seq<string>): string { "[" + Join(QuoteAll(values)) + "]" }

  // ---------------------------------------------------------------- one escape per character

  /** The text a single character becomes. */
  function Escape(c: char): string {
    if c == '\\' then "\\\\"
    else if c == '"' then "\\\""
    else if c == '\n' then "\\n"
    else if c == '\r' then "\\r"
    else if c == '\t' then "\\t"
    else EscapeControl(c)
  }

  lemma {:induction false} FlatMapAdds(s: string, t: string, f: char -> string)
    ensures FlatMap(s + t, f) == FlatMap(s, f) + FlatMap(t, f)
  {
    if |s| == 0 {
      assert s + t == t;
    } else {
      assert (s + t)[1..] == s[1..] + t;
      FlatMapAdds(s[1..], t, f);
    }
  }

  lemma {:induction false} FlatMapComposes(s: string, f: char -> string, g: char -> string, h: char -> string)
    requires forall c :: FlatMap(f(c), g) == h(c)
    ensures FlatMap(FlatMap(s, f), g) == FlatMap(s, h)
  {
    if |s| > 0 {
      FlatMapAdds(f(s[0]), FlatMap(s[1..], f), g);
      FlatMapComposes(s[1..], f, g, h);
    }
  }

  lemma FlatMapOne(c: char, f: char -> string)
    ensures FlatMap([c], f) == f(c)
  {
    assert [c][1..] == "";
  }

  lemma FlatMapTwo(c: char, d: char, f: char -> string)
    ensures FlatMap([c, d], f) == f(c) + f(d)
  {
    assert [c, d][1..] == [d];
    FlatMapOne(d, f);
  }

  /**
   One more replacement: the texts made so far contain the character to replace only where they are that character
   itself.
   */
  lemma ReplaceStep(s: string, f: char -> string, c: char, with: string, h: char -> string)
    requires forall x :: |f(x)| == 1 || |f(x)| == 2
    requires forall x :: h(x) == if f(x) == [c] then with else f(x)
    requires forall x :: |f(x)| == 2 ==> f(x)[0] != c && f(x)[1] != c
    ensures Replace(FlatMap(s, f), c, with) == FlatMap(s, h)
  {
    var g := Only(c, with);
    forall x ensures FlatMap(f(x), g) == h(x) {
      if |f(x)| == 1 {
        assert f(x) == [f(x)[0]];
        FlatMapOne(f(x)[0], g);
      } else {
        assert f(x) == [f(x)[0], f(x)[1]];
        FlatMapTwo(f(x)[0], f(x)[1], g);
      }
    }
    FlatMapComposes(s, f, g, h);
  }

  function After1(c: char): string { if c == '\\' then "\\\\" else [c] }
  function After2(c: char): string { if c == '"' then "\\\"" else After1(c) }
  function After3(c: char): string { if c == '\n' then "\\n" else After2(c) }
  function After4(c: char): string { if c == '\r' then "\\r" else After3(c) }
  function After5(c: char): string { if c == '\t' then "\\t" else After4(c) }

  lemma ControlStep(c: char)
    ensures FlatMap(After5(c), EscapeControl) == Escape(c)
  {
    var t := After5(c);
    if |t| == 1 {
      assert t == [t[0]];
      FlatMapOne(t[0], EscapeControl);
    } else {
      assert t == [t[0], t[1]];
      FlatMapTwo(t[0], t[1], EscapeControl);
    }
  }

  lemma Step1(s: string)
    ensures Replace(s, '\\', "\\\\") == FlatMap(s, After1)
  {
    FlatMapSame(s, Only('\\', "\\\\"), After1);
  }

  lemma Step2(s: string)
    ensures Replace(FlatMap(s, After1), '"', "\\\"") == FlatMap(s, After2)
  {
    ReplaceStep(s, After1, '"', "\\\"", After2);
  }

  lemma Step3(s: string)
    ensures Replace(FlatMap(s, After2), '\n', "\\n") == FlatMap(s, After3)
  {
    ReplaceStep(s, After2, '\n', "\\n", After3);
  }

  lemma Step4(s: string)
    ensures Replace(FlatMap(s, After3), '\r', "\\r") == FlatMap(s, After4)
  {
    ReplaceStep(s, After3, '\r', "\\r", After4);
  }

  lemma Step5(s: string)
    ensures Replace(FlatMap(s, After4), '\t', "\\t") == FlatMap(s, After5)
  {
    ReplaceStep(s, After4, '\t', "\\t", After5);
  }

  lemma Step6(s: string)
    ensures FlatMap(FlatMap(s, After5), EscapeControl) == FlatMap(s, Escape)
  {
    forall c ensures FlatMap(After5(c), EscapeControl) == Escape(c) { ControlStep(c); }
    FlatMapComposes(s, After5, EscapeControl, Escape);
  }

  /** The sequential replacements amount to escaping every character on its own. */
  lemma QuoteIsPerCharacter(s: string)
    ensures Quote(s) == "\"" + FlatMap(s, Escape) + "\""
  {
    hide FlatMap, Replace;
    Step1(s);
    Step2(s);
    Step3(s);
    Step4(s);
    Step5(s);
    Step6(s);
  }

  lemma {:induction false} FlatMapSame(s: string, f: char -> string, g: char -> string)
    requires forall c :: f(c) == g(c)
    ensures FlatMap(s, f) == FlatMap(s, g)
  {
    if |s| > 0 { FlatMapSame(s[1..], f, g); }
  }

  /** What each character becomes: five short escapes, four digits for other control characters, and else itself. */
  lemma EscapeExactly(c: char)
    ensures c >= ' ' && c != '"' && c != '\\' ==> Escape(c) == [c]
    ensures c < ' ' && c != '\t' && c != '\n' && c != '\r' ==>
      Escape(c) == "\\u00" + [if c < '\U{0010}' then '0' else '1', "0123456789abcdef"[c as int % 16]]
    ensures Escape('\t') == "\\t" && Escape('\n') == "\\n" && Escape('\r') == "\\r"
    ensures Escape('"') == "\\\"" && Escape('\\') == "\\\\"
  {}

  predicate Plain(s: string) { forall i :: 0 <= i < |s| ==> s[i] >= ' ' && s[i] != '"' && s[i] != '\\' }

  /** A string without quotes, backslashes and control characters is only put between quotes. */
  lemma PlainIsUnchanged(s: string)
    requires Plain(s)
    ensures Quote(s) == "\"" + s + "\""
  {
    QuoteIsPerCharacter(s);
    PlainCharacters(s);
  }

  lemma {:induction false} PlainCharacters(s: string)
    requires Plain(s)
    ensures FlatMap(s, Escape) == s
  {
    if |s| > 0 { PlainCharacters(s[1..]); }
  }

  // ---------------------------------------------------------------- the reader

  /** The characters a basic string may hold as they are (section "String" of TOML v1.0.0). */
  predicate Unescaped(c: char) {
    c == '\t' || c == ' ' || c == '!' || '#' <= c <= '[' || ']' <= c <= '~' || c >= '\U{0080}'
  }

  function HexValue(c: char): Option<nat> {
    if '0' <= c <= '9' then Some(c as int - '0' as int)
    else if 'a' <= c <= 'f' then Some(c as int - 'a' as int + 10)
    else if 'A' <= c <= 'F' then Some(c as int - 'A' as int + 10)
    else None
  }

  /** The number spelled by hexadecimal digits. */
  function HexNumber(s: string): Option<nat> {
    if |s| == 0 then Some(0)
    else
      match (HexNumber(s[..|s| - 1]), HexValue(s[|s| - 1]))
      case (Some(high), Some(low)) => Some(16 * high + low)
      case _ => None
  }

  /** A Unicode scalar value, if `n` is one. */
  function Scalar(n: nat): Option<char> {
    if n < 0xD800 || 0xE000 <= n < 0x11_0000 then Some(n as char) else None
  }

  /** The character of an escape that starts after its backslash, and how much text it takes. */
  function ReadEscape(s: string): (r: Option<(char, nat)>)
    ensures r.Some? ==> 0 < r.value.1 <= |s|
  {
    if |s| == 0 then None
    else if s[0] == 'b' then Some(('\U{0008}', 1))
    else if s[0] == 't' then Some(('\t', 1))
    else if s[0] == 'n' then Some(('\n', 1))
    else if s[0] == 'f' then Some(('\U{000C}', 1))
    else if s[0] == 'r' then Some(('\r', 1))
    else if s[0] == '"' then Some(('"', 1))
    else if s[0] == '\\' then Some(('\\', 1))
    else
      var width := if s[0] == 'u' then 4 else 8;
      if s[0] !in {'u', 'U'} || |s| < 1 + width then None
      else
        var n := HexNumber(s[1..1 + width]);
        if n.None? || Scalar(n.value).None? then None else Some((Scalar(n.value).value, 1 + width))
  }

  /** The rest of a basic string after its opening quote, and the text that follows its closing quote. */
  function ReadBody(s: string): (r: Option<(string, string)>)
    ensures r.Some? ==> |r.value.1| < |s|
    decreases |s|
  {
    if |s| == 0 then None
    else if s[0] == '"' then Some(("", s[1..]))
    else if s[0] == '\\' then
      match ReadEscape(s[1..])
      case None => None
      case Some((c, n)) => Prepend(c, ReadBody(s[1 + n..]))
    else if Unescaped(s[0]) then Prepend(s[0], ReadBody(s[1..]))
    else None
  }

  function Prepend(c: char, r: Option<(string, string)>): Option<(string, string)> {
    match r case None => None case Some((s, rest)) => Some(([c] + s, rest))
  }

  function ReadString(s: string): (r: Option<(string, string)>)
    ensures r.Some? ==> |r.value.1| < |s|
  {
    if |s| == 0 || s[0] != '"' then None else ReadBody(s[1..])
  }

  predicate Blank(c: char) { c == ' ' || c == '\t' || c == '\n' || c == '\r' }

  function SkipBlank(s: string): (r: string)
    ensures |r| <= |s|
  {
    if |s| > 0 && Blank(s[0]) then SkipBlank(s[1..]) else s
  }

  /** The elements of an array of strings up to its closing bracket; a comma may trail. */
  function ReadElements(s: string): Option<(seq<string>, string)>
    decreases |s|
  {
    var t := SkipBlank(s);
    if |t| == 0 then None
    else if t[0] == ']' then Some(([], t[1..]))
    else
      match ReadString(t)
      case None => None
      case Some((first, rest)) =>
        var u := SkipBlank(rest);
        if |u| == 0 then None
        else if u[0] == ']' then Some(([first], u[1..]))
        else if u[0] != ',' then None
        else match ReadElements(u[1..])
          case None => None
          case Some((more, end)) => Some(([first] + more, end))
  }

  function ReadList(s: string): Option<(seq<string>, string)> {
    if |s| == 0 || s[0] != '[' then None else ReadElements(s[1..])
  }

  // ---------------------------------------------------------------- main results

  const DELETE := '\U{007F}'

  lemma HexRoundTrip(c: char)
    requires Control(c)
    ensures HexNumber(Hex4(c)) == Some(c as nat)
  {
    var d := Hex4(c);
    assert d[..3][..2][..1][..0] == "" && d[..3][..2][..1] == ['0'] && d[..3][..2] == ['0', '0'];
    assert d[..3] == ['0', '0', d[2]];
    assert HexNumber(d[..3][..2][..1]) == Some(0);
    assert HexNumber(d[..3][..2]) == Some(0);
    HexDigitRoundTrip(c as int / 16);
    HexDigitRoundTrip(c as int % 16);
    assert HexNumber(d[..3]) == Some(c as int / 16);
  }

  lemma HexDigitRoundTrip(n: nat)
    requires n < 16
    ensures HexValue(HexDigit(n)) == Some(n)
  {}

  /** Digits are read in either case. */
  lemma HexExactly(c: char, n: nat)
    ensures HexValue(c) == Some(n) <==> n < 16 && c in {"0123456789abcdef"[n], "0123456789ABCDEF"[n]}
  {}

  /** Only quoted strings and bracketed lists are read. */
  lemma ReadNeedsDelimiters(s: string)
    ensures ReadString(s).Some? ==> s[0] == '"'
    ensures ReadList(s).Some? ==> s[0] == '['
  {}

  lemma LiteralIsPlain(c: char)
    requires Escape(c) == [c]
    ensures c != '"' && c != '\\' && (Unescaped(c) <==> c != DELETE)
  {}

  lemma ReadLiteral(c: char, rest: string)
    requires Escape(c) == [c]
    ensures ReadBody(Escape(c) + rest) == if c == DELETE then None else Prepend(c, ReadBody(rest))
  {
    LiteralIsPlain(c);
    hide Escape, Unescaped, ReadEscape;
    assert ([c] + rest)[1..] == rest;
  }

  lemma ReadPair(c: char, rest: string)
    requires |Escape(c)| == 2
    ensures ReadBody(Escape(c) + rest) == Prepend(c, ReadBody(rest))
  {
    var t := Escape(c) + rest;
    assert t[1..][0] == Escape(c)[1] && t[2..] == rest;
  }

  lemma ReadHex(c: char, rest: string)
    requires Control(c) && Escape(c) == "\\u" + Hex4(c)
    ensures ReadBody(Escape(c) + rest) == Prepend(c, ReadBody(rest))
  {
    var t := Escape(c) + rest;
    var u := t[1..];
    HexRoundTrip(c);
    hide HexNumber, Hex4, Escape;
    assert u == ['u'] + Hex4(c) + rest;
    assert u[1..5] == Hex4(c) && t[6..] == rest;
  }

  /** Reading the escape of one character gives the character back; only U+007F cannot be read. */
  lemma ReadOne(c: char, rest: string)
    ensures ReadBody(Escape(c) + rest) == if c == DELETE then None else Prepend(c, ReadBody(rest))
  {
    hide ReadBody;
    if Escape(c) == [c] {
      ReadLiteral(c, rest);
    } else if |Escape(c)| == 2 {
      ReadPair(c, rest);
    } else {
      ReadHex(c, rest);
    }
  }

  lemma ReadEnd(rest: string)
    ensures ReadBody("" + ("\"" + rest)) == Some(("", rest))
  {
    assert "" + ("\"" + rest) == "\"" + rest;
    assert ("\"" + rest)[1..] == rest;
  }

  lemma FlatMapFirst(s: string, f: char -> string, tail: string)
    requires |s| > 0
    ensures FlatMap(s, f) + tail == f(s[0]) + (FlatMap(s[1..], f) + tail)
  {}

  lemma {:induction false} ReadAll(s: string, rest: string)
    ensures ReadBody(FlatMap(s, Escape) + ("\"" + rest)) == if DELETE in s then None else Some((s, rest))
  {
    if |s| == 0 {
      ReadEnd(rest);
      assert FlatMap(s, Escape) == "";
    } else {
      hide ReadBody, Escape, FlatMap;
      var after := "\"" + rest;
      ReadAll(s[1..], rest);
      ReadOne(s[0], FlatMap(s[1..], Escape) + after);
      FlatMapFirst(s, Escape, after);
      assert s == [s[0]] + s[1..];
    }
  }

  /** Reading what was written gives exactly the string and the text after it, precisely when it holds no U+007F. */
  lemma StringRoundTrip(s: string, rest: string)
    ensures ReadString(Quote(s) + rest) == if DELETE in s then None else Some((s, rest))
  {
    QuoteIsPerCharacter(s);
    ReadAll(s, rest);
    hide FlatMap, ReadBody, Quote;
    assert (Quote(s) + rest)[1..] == FlatMap(s, Escape) + ("\"" + rest);
  }

  /** No written string is the beginning of another: what follows it cannot be mistaken for a part of it. */
  lemma QuotesArePrefixFree(s: string, x: string, t: string, y: string)
    requires Quote(s) + x == Quote(t) + y && DELETE !in s
    ensures s == t && x == y
  {
    StringRoundTrip(s, x);
    StringRoundTrip(t, y);
  }

  predicate Readable(values: seq<string>) { forall i :: 0 <= i < |values| ==> DELETE !in values[i] }

  /** A written list reads back as the same list, precisely when no element holds U+007F. */
  lemma ListRoundTrip(values: seq<string>, rest: string)
    ensures ReadList(QuoteList(values) + rest) == if Readable(values) then Some((values, rest)) else None
  {
    ElementsRoundTrip(values, rest);
    hide ReadElements, Join, QuoteAll;
    assert (QuoteList(values) + rest)[1..] == Join(QuoteAll(values)) + ("]" + rest);
  }

  function Consed(first: string, r: Option<(seq<string>, string)>): Option<(seq<string>, string)> {
    match r case None => None case Some((more, end)) => Some(([first] + more, end))
  }

  lemma QuoteStarts(first: string, after: string)
    ensures SkipBlank(Quote(first) + after) == Quote(first) + after
    ensures |Quote(first)| > 0 && Quote(first)[0] == '"'
  {}

  /** The last element is followed by the closing bracket. */
  lemma ReadsLast(first: string, rest: string)
    ensures ReadElements(Quote(first) + ("]" + rest)) == if DELETE in first then None else Some(([first], rest))
  {
    var after := "]" + rest;
    StringRoundTrip(first, after);
    QuoteStarts(first, after);
    hide Quote, ReadString;
    assert after[1..] == rest;
    assert SkipBlank(after) == after;
  }

  /** Any other element is followed by a comma and a blank. */
  lemma ReadsMore(first: string, tail: string)
    ensures ReadElements(Quote(first) + (", " + tail)) == if DELETE in first then None
      else Consed(first, ReadElements(tail))
  {
    var after := ", " + tail;
    StringRoundTrip(first, after);
    QuoteStarts(first, after);
    SkipsOne(tail);
    hide Quote, ReadString;
    assert after[1..] == " " + tail;
    assert SkipBlank(after) == after;
  }

  lemma Regroup<T>(a: seq<T>, b: seq<T>, c: seq<T>, d: seq<T>)
    ensures a + b + c + d == a + (b + (c + d))
  {}

  lemma JoinParts(values: seq<string>)
    requires |values| > 1
    ensures Join(QuoteAll(values)) == Quote(values[0]) + ", " + Join(QuoteAll(values[1..]))
  {
    hide Quote;
    var parts := QuoteAll(values);
    assert parts[0] == Quote(values[0]) && parts[1..] == QuoteAll(values[1..]);
  }

  lemma JoinsMore(values: seq<string>, rest: string)
    requires |values| > 1
    ensures Join(QuoteAll(values)) + ("]" + rest) ==
      Quote(values[0]) + (", " + (Join(QuoteAll(values[1..])) + ("]" + rest)))
  {
    hide Quote, Join, QuoteAll;
    JoinParts(values);
    Regroup(Quote(values[0]), ", ", Join(QuoteAll(values[1..])), "]" + rest);
  }

  lemma JoinsLast(values: seq<string>)
    requires |values| == 1
    ensures Join(QuoteAll(values)) == Quote(values[0])
  {
    hide Quote;
    assert QuoteAll(values)[0] == Quote(values[0]);
  }

  lemma NoElements(rest: string)
    ensures ReadElements(Join(QuoteAll([])) + ("]" + rest)) == Some(([], rest))
  {
    assert Join(QuoteAll([])) + ("]" + rest) == "]" + rest;
    assert ("]" + rest)[1..] == rest;
  }

  lemma OneElement(value: string, rest: string)
    ensures ReadElements(Join(QuoteAll([value])) + ("]" + rest)) == if DELETE in value then None
      else Some(([value], rest))
  {
    hide ReadElements, Quote;
    JoinsLast([value]);
    ReadsLast(value, rest);
  }

  lemma NothingUnreadable()
    ensures Readable([])
  {}

  lemma {:induction false} ElementsRoundTrip(values: seq<string>, rest: string)
    ensures ReadElements(Join(QuoteAll(values)) + ("]" + rest)) ==
      if Readable(values) then Some((values, rest)) else None
  {
    hide ReadElements, Quote, QuoteAll, Readable, Join;
    if |values| == 0 {
      NoElements(rest);
      NothingUnreadable();
      assert values == [];
    } else if |values| == 1 {
      OneElement(values[0], rest);
      ReadableParts(values);
      NothingUnreadable();
      assert values == [values[0]] && values[1..] == [];
    } else {
      ReadableParts(values);
      JoinsMore(values, rest);
      ReadsMore(values[0], Join(QuoteAll(values[1..])) + ("]" + rest));
      ElementsRoundTrip(values[1..], rest);
      assert values == [values[0]] + values[1..];
    }
  }

  lemma ReadableParts(values: seq<string>)
    requires |values| > 0
    ensures Readable(values) <==> DELETE !in values[0] && Readable(values[1..])
  {
    if Readable(values) {
      assert forall i :: 0 <= i < |values| - 1 ==> values[1..][i] == values[i + 1];
    } else {
      var i :| 0 <= i < |values| && DELETE in values[i];
      assert i > 0 ==> values[1..][i - 1] == values[i];
    }
  }

  /** A blank in front of the elements makes no difference. */
  lemma SkipsOne(s: string)
    ensures ReadElements(" " + s) == ReadElements(s)
  {
    assert (" " + s)[1..] == s;
  }
}
