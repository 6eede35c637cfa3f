/** How the parts of an INI file are written and read back: quoted values, plain pairs, headers, comments, lookups. */
module IniLaws {
  import opened IniModel

  // ----- letters -----

  /** Capitals are folded to small letters, 32 places on; nothing else is folded. */
  lemma FoldsTo(c: char)
    ensures 'A' <= c <= 'Z' ==> Lower(c) as int == c as int + 32 && 'a' <= Lower(c) <= 'z'
    ensures !('A' <= c <= 'Z') ==> Lower(c) == c
  {}

  /** The same letter, large or small. */
  predicate SameLetter(x: char, y: char) {
    || x == y
    || ('A' <= x <= 'Z' && y as int == x as int + 32)
    || ('A' <= y <= 'Z' && x as int == y as int + 32)
  }

  /** Two names are the same when they are equal but for the case of letters. */
  lemma SameIs(a: string, b: string)
    ensures Same(a, b) <==> |a| == |b| && forall i | 0 <= i < |a| :: SameLetter(a[i], b[i])
  {
    forall i | 0 <= i < |a| && |a| == |b| ensures Lower(a[i]) == Lower(b[i]) <==> SameLetter(a[i], b[i]) {
      FoldsTo(a[i]);
      FoldsTo(b[i]);
    }
  }

  // ----- quoted values -----

  /** A character as it is written between quotes. */
  function QuoteChar(c: char): (r: string)
    ensures 1 <= |r| <= 2
  {
    match c
    case '\n' => "\\n"
    case '\r' => "\\r"
    case '\t' => "\\t"
    case '"' => "\\\""
    case '\\' => "\\\\"
    case _ => [c]
  }

  function Quoted(value: string): string {
    if value == "" then "" else QuoteChar(value[0]) + Quoted(value[1..])
  }

  lemma QuotedChar(c: char, t: string)
    requires c != '\0'
    ensures Unescape(QuoteChar(c) + t) == [c] + Unescape(t)
  {
    var q := QuoteChar(c);
    var s := q + t;
    assert s[|q|..] == t && s[0] == q[0] && (|q| == 2 ==> s[1] == q[1]);
  }

  /** Every value can be written between quotes, and is read back whole. */
  lemma {:induction false} QuotedReads(value: string, rest: string)
    requires '\0' !in value
    ensures Unescape(Quoted(value) + ("\"" + rest)) == value
  {
    var end := "\"" + rest;
    if value == "" {
      assert "" + end == end;
    } else {
      hide Unescape;
      assert value[0] in value;
      QuotedReads(value[1..], rest);
      QuotedChar(value[0], Quoted(value[1..]) + end);
      assert Quoted(value) + end == QuoteChar(value[0]) + (Quoted(value[1..]) + end);
    }
  }

  /** What the escapes mean: r, n and t are control characters, and every other character is itself. */
  lemma EscapesRead(c: char, t: string)
    requires c != '\r' && c != '\n' && c != '\0'
    ensures Unescape("\\" + ([c] + t)) ==
            [if c == 'r' then '\r' else if c == 'n' then '\n' else if c == 't' then '\t' else c] + Unescape(t)
  {
    var s := "\\" + ([c] + t);
    assert s[0] == '\\' && s[1] == c && s[2..] == t;
  }

  // ----- lines -----

  predicate Blanks(s: string) {
    forall i | 0 <= i < |s| :: IsBlank(s[i])
  }

  /** Something without blanks at its ends. */
  predicate Tight(s: string) {
    s != "" && !IsBlank(s[0]) && !IsBlank(s[|s| - 1])
  }

  lemma {:induction false} BlanksTrimmedEnd(s: string, blanks: string)
    requires Blanks(blanks) && (s == "" || !IsBlank(s[|s| - 1]))
    ensures TrimEnd(s + blanks) == s
  {
    if blanks == "" {
      assert s + blanks == s;
    } else {
      var n := |blanks| - 1;
      assert (s + blanks)[..|s + blanks| - 1] == s + blanks[..n];
      BlanksTrimmedEnd(s, blanks[..n]);
    }
  }

  lemma {:induction false} BlanksTrimmedStart(blanks: string, s: string)
    requires Blanks(blanks) && (s == "" || !IsBlank(s[0]))
    ensures TrimStart(blanks + s) == s
  {
    if blanks == "" {
      assert blanks + s == s;
    } else {
      assert (blanks + s)[1..] == blanks[1..] + s;
      BlanksTrimmedStart(blanks[1..], s);
    }
  }

  lemma SplitAtEquals(left: string, right: string)
    requires '=' !in left
    ensures Span(left + ("=" + right), '=', '=') == |left|
    ensures (left + ("=" + right))[..|left|] == left && (left + ("=" + right))[|left| + 1..] == right
  {
    SpanUnique(left + ("=" + right), '=', '=', |left|);
  }

  /** A key and what follows its `=`, with blanks around. */
  lemma PairReads(key: string, a: string, b: string, rest: string)
    requires '=' !in key && (key == "" || !IsBlank(key[|key| - 1])) && Blanks(a) && Blanks(b)
    requires rest == "" || !IsBlank(rest[0])
    ensures PairOf((key + a) + ("=" + (b + rest))) == if ValueOf(rest) == "" then [] else [Pair(key, ValueOf(rest))]
  {
    hide Span, TrimEnd, TrimStart, ValueOf;
    forall i | 0 <= i < |a| ensures a[i] != '=' {
      assert IsBlank(a[i]);
    }
    SplitAtEquals(key + a, b + rest);
    BlanksTrimmedEnd(key, a);
    BlanksTrimmedStart(b, rest);
  }

  /** `key = value`: the value is what is left without the blanks around it. */
  lemma PlainReads(key: string, a: string, b: string, value: string, c: string)
    requires '=' !in key && (key == "" || !IsBlank(key[|key| - 1])) && Blanks(a) && Blanks(b) && Blanks(c)
    requires Tight(value) && value[0] != '"'
    ensures PairOf((key + a) + ("=" + (b + (value + c)))) == [Pair(key, value)]
  {
    hide PairOf, TrimEnd;
    assert (value + c)[0] == value[0];
    PairReads(key, a, b, value + c);
    BlanksTrimmedEnd(value, c);
  }

  /** `key = "value"`: the value between the quotes, blanks and all; what comes behind them is dropped. */
  lemma QuotedPairReads(key: string, a: string, b: string, value: string, rest: string)
    requires '=' !in key && (key == "" || !IsBlank(key[|key| - 1])) && Blanks(a) && Blanks(b)
    requires '\0' !in value
    ensures PairOf((key + a) + ("=" + (b + ("\"" + (Quoted(value) + ("\"" + rest)))))) ==
            if value == "" then [] else [Pair(key, value)]
  {
    hide PairOf, Unescape;
    var inner := Quoted(value) + ("\"" + rest);
    assert ("\"" + inner)[0] == '"' && ("\"" + inner)[1..] == inner;
    PairReads(key, a, b, "\"" + inner);
    QuotedReads(value, rest);
  }

  /** A line without `=` says nothing. */
  lemma NoPair(line: string)
    requires '=' !in line
    ensures PairOf(line) == []
  {
    SpanUnique(line, '=', '=', |line|);
  }

  /** Blanks before a line do not matter. */
  lemma {:induction false} Indented(blanks: string, line: string)
    requires Blanks(blanks)
    ensures ParseLine(blanks + line) == ParseLine(line)
  {
    if blanks == "" {
      assert blanks + line == line;
    } else {
      hide PairOf;
      assert (blanks + line)[1..] == blanks[1..] + line;
      Indented(blanks[1..], line);
    }
  }

  /** A header is what is between the brackets, and the line may go on behind it. */
  lemma HeaderReads(name: string, rest: string)
    requires ']' !in name
    ensures ParseLine("[" + name + "]" + rest) == [Section(name)] + ParseLine(rest)
  {
    hide PairOf;
    var line := "[" + name + "]" + rest;
    SpanUnique(line, ']', ']', |name| + 1);
    HeaderLine(line);
    assert line[1..|name| + 1] == name && After(line, |name| + 1) == rest;
  }

  /** A comment says nothing. */
  lemma CommentReads(rest: string)
    ensures ParseLine(";" + rest) == []
  {}

  /** Any other line is a pair, or nothing. */
  lemma OtherReads(line: string)
    requires line != "" && !IsBlank(line[0]) && line[0] != '[' && line[0] != ';'
    ensures ParseLine(line) == PairOf(line)
  {
    hide PairOf;
  }

  /** A text is its lines. */
  lemma LinesRead(line: string, rest: string)
    requires '\n' !in line
    ensures Document(line + ("\n" + rest)) == ParseLine(line) + Document(rest)
    ensures Document(line) == ParseLine(line)
  {
    hide ParseLine;
    var text := line + ("\n" + rest);
    SpanUnique(text, '\n', '\n', |line|);
    assert text[..|line|] == line && After(text, |line|) == rest;
    SpanUnique(line, '\n', '\n', |line|);
    assert line[..|line|] == line && After(line, |line|) == "";
    if line == "" {
      EmptyLine();
    }
    assert ParseLine(line) + [] == ParseLine(line);
  }

  // ----- lookups -----

  /** The section item `i` is in. */
  function SectionAt(items: seq<Item>, current: string, i: nat): string
    requires i <= |items|
    decreases i
  {
    if i == 0 then current
    else if items[i - 1].Section? then items[i - 1].name
    else SectionAt(items, current, i - 1)
  }

  /** Item `i` is the key looked for, in the section asked for. */
  predicate Matches(items: seq<Item>, current: string, section: Option<string>, key: string, i: nat)
    requires i < |items|
  {
    items[i].Pair? && Same(items[i].key, key) && (section.None? || Same(section.value, SectionAt(items, current, i)))
  }

  lemma {:induction false} SectionShift(items: seq<Item>, current: string, i: nat)
    requires items != [] && i < |items|
    ensures SectionAt(items, current, i + 1) ==
            SectionAt(items[1..], if items[0].Section? then items[0].name else current, i)
  {
    if i > 0 {
      SectionShift(items, current, i - 1);
      assert items[i] == items[1..][i - 1];
    }
  }

  /** What a lookup finds is the value of the first match, and it finds nothing only if there is none. */
  lemma {:induction false} LookupFirst(items: seq<Item>, current: string, section: Option<string>, key: string)
    ensures match Lookup(items, current, section, key)
            case None => forall i | 0 <= i < |items| :: !Matches(items, current, section, key, i)
            case Some(v) =>
              exists i :: 0 <= i < |items| && Matches(items, current, section, key, i) && items[i].value == v &&
                          forall j | 0 <= j < i :: !Matches(items, current, section, key, j)
  {
    hide Same;
    if items != [] {
      var rest, next := items[1..], if items[0].Section? then items[0].name else current;
      forall i | 0 <= i < |rest|
        ensures Matches(items, current, section, key, i + 1) == Matches(rest, next, section, key, i)
      {
        SectionShift(items, current, i);
      }
      if Matches(items, current, section, key, 0) {
        assert Lookup(items, current, section, key) == Some(items[0].value);
      } else {
        LookupFirst(rest, next, section, key);
        assert Lookup(items, current, section, key) == Lookup(rest, next, section, key);
        match Lookup(rest, next, section, key)
        case None =>
          forall i | 0 <= i < |items| ensures !Matches(items, current, section, key, i) {
            if i > 0 {
              assert !Matches(rest, next, section, key, i - 1);
            }
          }
        case Some(v) =>
          var i :| 0 <= i < |rest| && Matches(rest, next, section, key, i) && rest[i].value == v &&
                   forall j | 0 <= j < i :: !Matches(rest, next, section, key, j);
          forall j | 0 <= j < i + 1 ensures !Matches(items, current, section, key, j) {
            if j > 0 {
              assert !Matches(rest, next, section, key, j - 1);
            }
          }
          assert Matches(items, current, section, key, i + 1) && items[i + 1].value == v;
      }
    }
  }
}
