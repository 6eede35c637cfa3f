/** What an INI file means, line by line, and what ini_get finds in the strings that splitting it leaves. */
module IniModel {

  datatype Option<T> = None | Some(value: T)

  datatype Item = Section(name: string) | Pair(key: string, value: string)

  predicate IsBlank(c: char) {
    c == ' ' || c == '\t' || c == '\r'
  }

  /** The length of the longest prefix with neither `a` nor `b` (strcspn). */
  function Span(s: string, a: char, b: char): (n: nat)
    ensures n <= |s|
  {
    if s == [] || s[0] == a || s[0] == b then 0 else 1 + Span(s[1..], a, b)
  }

  lemma {:induction false} SpanIs(s: string, a: char, b: char)
    ensures var n := Span(s, a, b); (forall i | 0 <= i < n :: s[i] != a && s[i] != b) && (n < |s| ==> s[n] == a || s[n] == b)
  {
    if s != [] && s[0] != a && s[0] != b {
      SpanIs(s[1..], a, b);
      assert s == [s[0]] + s[1..];
    }
  }

  function TrimEnd(s: string): (r: string)
    ensures |r| <= |s|
  {
    if s == [] || !IsBlank(s[|s| - 1]) then s else TrimEnd(s[..|s| - 1])
  }

  function TrimStart(s: string): (r: string)
    ensures |r| <= |s|
  {
    if s == [] || !IsBlank(s[0]) then s else TrimStart(s[1..])
  }

  /** Only blanks at the end are lost. */
  lemma {:induction false} TrimEndIs(s: string)
    ensures var r := TrimEnd(s);
            r == s[..|r|] && (forall i | |r| <= i < |s| :: IsBlank(s[i])) && (r != "" ==> !IsBlank(r[|r| - 1]))
  {
    if s != [] && IsBlank(s[|s| - 1]) {
      TrimEndIs(s[..|s| - 1]);
      assert s == s[..|s| - 1] + [s[|s| - 1]];
    }
  }

  lemma {:induction false} TrimStartIs(s: string)
    ensures var r := TrimStart(s);
            r == s[|s| - |r|..] && (forall i | 0 <= i < |s| - |r| :: IsBlank(s[i])) && (r != "" ==> !IsBlank(r[0]))
  {
    if s != [] && IsBlank(s[0]) {
      TrimStartIs(s[1..]);
      assert s == [s[0]] + s[1..];
    }
  }

  /** What a backslash makes of the character after it. */
  function Escape(c: char): char {
    match c
    case 'r' => '\r'
    case 'n' => '\n'
    case 't' => '\t'
    case _ => c
  }

  /** A quoted value, after its opening quote: to the closing quote or the end of the line. */
  function Unescape(s: string): (r: string)
    ensures |r| <= |s|
  {
    if s == [] || s[0] == '"' || s[0] == '\r' || s[0] == '\n' then []
    else if s[0] != '\\' then [s[0]] + Unescape(s[1..])
    else if |s| == 1 || s[1] == '\r' || s[1] == '\n' || s[1] == '\0' then []
    else [Escape(s[1])] + Unescape(s[2..])
  }

  /** The value in what follows the `=` and its blanks. */
  function ValueOf(rest: string): string {
    if rest == "" then "" else if rest[0] == '"' then Unescape(rest[1..]) else TrimEnd(rest)
  }

  /** A line that is neither a section header nor a comment; without a `=` or a value it is dropped. */
  function PairOf(line: string): (r: seq<Item>)
    ensures |r| <= 1
  {
    var n := Span(line, '=', '=');
    if n == |line| then []
    else
      var value := ValueOf(TrimStart(line[n + 1..]));
      if value == "" then [] else [Pair(TrimEnd(line[..n]), value)]
  }

  /** What follows the separator at `n`. */
  function After(s: string, n: nat): (r: string)
    ensures |r| <= |s| && (s != "" ==> |r| < |s|)
  {
    if n < |s| then s[n + 1..] else ""
  }

  /** A whole line; more may follow the closing bracket of a section header. */
  function ParseLine(line: string): seq<Item>
    decreases |line|
  {
    if line == [] then []
    else if IsBlank(line[0]) then ParseLine(line[1..])
    else if line[0] == '[' then
      var n := Span(line, ']', ']');
      [Section(line[1..n])] + ParseLine(After(line, n))
    else if line[0] == ';' then []
    else PairOf(line)
  }

  /** The items of a text, line by line. */
  function Document(text: string): seq<Item>
    decreases |text|
  {
    if text == "" then []
    else
      var n := Span(text, '\n', '\n');
      ParseLine(text[..n]) + Document(After(text, n))
  }

  // ----- lookup -----

  function Lower(c: char): char {
    if 'A' <= c <= 'Z' then c - 'A' + 'a' else c
  }

  /** Equality without regard to case. */
  predicate Same(a: string, b: string) {
    |a| == |b| && forall i | 0 <= i < |a| :: Lower(a[i]) == Lower(b[i])
  }

  predicate InSection(section: Option<string>, current: string) {
    section.None? || Same(section.value, current)
  }

  /** The value of the first matching key in the requested section, or in any. */
  function Lookup(items: seq<Item>, current: string, section: Option<string>, key: string): Option<string> {
    if items == [] then None
    else
      match items[0]
      case Section(name) => Lookup(items[1..], name, section, key)
      case Pair(k, value) =>
        if InSection(section, current) && Same(k, key) then Some(value) else Lookup(items[1..], current, section, key)
  }

  // ----- strings in memory -----

  /** The strings in a run of memory: the longest stretches without a NUL. */
  function Strings(s: string): seq<string> {
    if s == [] then []
    else if s[0] == '\0' then Strings(s[1..])
    else
      var n := Span(s, '\0', '\0');
      [s[..n]] + Strings(s[n..])
  }

  /** The strings an item leaves in memory: an empty key leaves none. */
  function StringsOf(item: Item): seq<string> {
    match item
    case Section(name) => ["[" + name]
    case Pair(key, value) => (if key == "" then [] else [key]) + [value]
  }

  function Flat(items: seq<Item>): seq<string> {
    if items == [] then [] else StringsOf(items[0]) + Flat(items[1..])
  }

  /** ini_get over the strings in memory: sections, and keys each followed by its value. */
  function Walk(strings: seq<string>, current: string, section: Option<string>, key: string): Option<string>
    decreases |strings|
  {
    if strings == [] then None
    else if strings[0] != "" && strings[0][0] == '[' then Walk(strings[1..], strings[0][1..], section, key)
    else
      var value := if |strings| > 1 then strings[1] else "";
      if InSection(section, current) && Same(strings[0], key) then Some(value)
      else Walk(if |strings| > 1 then strings[2..] else [], current, section, key)
  }

  predicate KeyedItem(item: Item) {
    item.Pair? ==> item.key != ""
  }

  /** Every line that gives a value gives it a name. */
  predicate Keyed(items: seq<Item>) {
    forall i | i in items :: KeyedItem(i)
  }

  predicate Named(items: seq<Item>) {
    forall i | i in items :: i.Pair? ==> i.value != "" && (i.key != "" ==> i.key[0] != '[')
  }

  /** When every value has a name, the strings in memory give the answers the lines give. */
  lemma {:induction false} WalkIsLookup(items: seq<Item>, current: string, section: Option<string>, key: string)
    requires Keyed(items) && Named(items)
    ensures Walk(Flat(items), current, section, key) == Lookup(items, current, section, key)
  {
    if items != [] {
      var rest := items[1..];
      assert items[0] in items;
      match items[0] {
        case Section(name) =>
          assert Flat(items) == ["[" + name] + Flat(rest);
          assert ("[" + name)[1..] == name;
          WalkIsLookup(rest, name, section, key);
        case Pair(k, v) =>
          assert KeyedItem(items[0]);
          assert Flat(items) == [k, v] + Flat(rest);
          WalkIsLookup(rest, current, section, key);
      }
    }
  }

  predicate NonEmpty(strings: seq<string>) {
    forall i | 0 <= i < |strings| :: strings[i] != ""
  }

  /** The empty name is never found in memory. */
  lemma {:induction false} WalkNeverEmpty(strings: seq<string>, current: string, section: Option<string>)
    requires NonEmpty(strings)
    ensures Walk(strings, current, section, "") == None
    decreases |strings|
  {
    if strings != [] {
      WalkNeverEmpty(strings[1..], strings[0][1..], section);
      WalkNeverEmpty(if |strings| > 1 then strings[2..] else [], current, section);
    }
  }

  /** A value without a name is what the lines give for the empty name. */
  lemma {:induction false} LookupEmpty(items: seq<Item>, current: string)
    ensures Lookup(items, current, None, "") == None <==> Keyed(items)
  {
    if items != [] {
      var rest := items[1..];
      KeyedFirst(items);
      match items[0] {
        case Section(name) =>
          LookupEmpty(rest, name);
        case Pair(k, v) =>
          LookupEmpty(rest, current);
          assert Same(k, "") <==> k == "";
      }
    }
  }

  lemma KeyedFirst(items: seq<Item>)
    requires items != []
    ensures Keyed(items) <==> KeyedItem(items[0]) && Keyed(items[1..])
  {
    assert items == [items[0]] + items[1..];
  }

  lemma {:induction false} FlatNonEmpty(items: seq<Item>)
    requires Named(items)
    ensures NonEmpty(Flat(items))
  {
    if items != [] {
      assert items[0] in items;
      FlatNonEmpty(items[1..]);
    }
  }

  /**
   * The two agree on every lookup exactly when every value has a name.  A nameless value is taken for a name,
   * and from there on names and values change places.
   */
  lemma LookupAgrees(items: seq<Item>)
    requires Named(items)
    ensures Keyed(items) <==>
            forall section, key :: Walk(Flat(items), "", section, key) == Lookup(items, "", section, key)
  {
    if Keyed(items) {
      forall section, key ensures Walk(Flat(items), "", section, key) == Lookup(items, "", section, key) {
        WalkIsLookup(items, "", section, key);
      }
    } else {
      FlatNonEmpty(items);
      WalkNeverEmpty(Flat(items), "", None);
      LookupEmpty(items, "");
      assert Walk(Flat(items), "", None, "") != Lookup(items, "", None, "");
    }
  }

  /** A line "=v" hides the pair after it. */
  lemma NamelessHides()
    ensures var text := "=v\na=b";
            && Document(text) == [Pair("", "v"), Pair("a", "b")]
            && Lookup(Document(text), "", None, "a") == Some("b")
            && Walk(Flat(Document(text)), "", None, "a") == None
  {
    hide Document, Walk, Lookup, Flat;
    NamelessText();
    NamelessWalk();
  }

  lemma NamelessText()
    ensures Document("=v\na=b") == [Pair("", "v"), Pair("a", "b")]
  {
    hide Walk, Lookup, Flat, ParseLine;
    var text := "=v\na=b";
    SpanUnique(text, '\n', '\n', 2);
    SpanUnique("a=b", '\n', '\n', 3);
    assert text[..2] == "=v" && text[3..] == "a=b" && "a=b"[..3] == "a=b";
    NamelessLines();
  }

  lemma NamelessLines()
    ensures ParseLine("=v") == [Pair("", "v")] && ParseLine("a=b") == [Pair("a", "b")]
  {
    hide ParseLine, PairOf;
    PlainLine("=v");
    PlainLine("a=b");
    PlainPair("", "v");
    PlainPair("a", "b");
    assert "" + "=" + "v" == "=v" && "a" + "=" + "b" == "a=b";
  }

  lemma Untrimmed(s: string)
    ensures s == "" || !IsBlank(s[|s| - 1]) ==> TrimEnd(s) == s
    ensures s == "" || !IsBlank(s[0]) ==> TrimStart(s) == s
  {}

  /** A plain line means what it says. */
  lemma PlainPair(key: string, value: string)
    requires '=' !in key && (key == "" || !IsBlank(key[|key| - 1]))
    requires value != "" && value[0] != '"' && !IsBlank(value[0]) && !IsBlank(value[|value| - 1])
    ensures PairOf(key + "=" + value) == [Pair(key, value)]
  {
    var line := key + "=" + value;
    SpanUnique(line, '=', '=', |key|);
    hide Span, TrimStart, TrimEnd;
    Untrimmed(key);
    Untrimmed(value);
    assert line[..|key|] == key && line[|key| + 1..] == value;
  }

  lemma PlainLine(line: string)
    requires line != [] && !IsBlank(line[0]) && line[0] != '[' && line[0] != ';'
    ensures ParseLine(line) == PairOf(line)
  {
    hide PairOf;
  }

  lemma NamelessWalk()
    ensures var items := [Pair("", "v"), Pair("a", "b")];
            Lookup(items, "", None, "a") == Some("b") && Walk(Flat(items), "", None, "a") == None
  {
    hide Document, ParseLine;
    var items := [Pair("", "v"), Pair("a", "b")];
    assert items[1..] == [Pair("a", "b")];
    assert Flat(items[1..]) == ["a", "b"] + Flat([]);
    assert Flat(items) == ["v", "a", "b"];
    assert Lower('v') != Lower('a') && Lower('b') != Lower('a');
    assert ["v", "a", "b"][2..] == ["b"];
    assert Walk(["b"], "", None, "a") == None;
  }

  // ----- what can be in memory -----

  lemma {:induction false} StringsConcat(a: string, b: string)
    requires a == [] || b == [] || a[|a| - 1] == '\0' || b[0] == '\0'
    ensures Strings(a + b) == Strings(a) + Strings(b)
    decreases |a|
  {
    if a == [] {
      assert a + b == b;
    } else if a[0] == '\0' {
      assert (a + b)[1..] == a[1..] + b;
      StringsConcat(a[1..], b);
    } else {
      var n := Span(a, '\0', '\0');
      SpanConcat(a, b, n);
      assert (a + b)[..n] == a[..n] && (a + b)[n..] == a[n..] + b;
      StringsConcat(a[n..], b);
    }
  }

  lemma {:induction false} SpanUnique(s: string, a: char, b: char, n: nat)
    requires n <= |s| && (forall i | 0 <= i < n :: s[i] != a && s[i] != b) && (n < |s| ==> s[n] == a || s[n] == b)
    ensures Span(s, a, b) == n
  {
    SpanIs(s, a, b);
    assert Span(s, a, b) == n || Span(s, a, b) < n || n < Span(s, a, b);
  }

  lemma SpanConcat(a: string, b: string, n: nat)
    requires a != [] && n == Span(a, '\0', '\0') && (b == [] || a[|a| - 1] == '\0' || b[0] == '\0')
    ensures Span(a + b, '\0', '\0') == n
  {
    SpanIs(a, '\0', '\0');
    SpanUnique(a + b, '\0', '\0', n);
  }

  lemma StringsOne(s: string)
    requires s != [] && '\0' !in s
    ensures Strings(s) == [s]
  {
    SpanUnique(s, '\0', '\0', |s|);
    assert s[..|s|] == s && s[|s|..] == [];
  }

  function Zeros(n: nat): (r: string)
    ensures |r| == n && forall i | 0 <= i < n :: r[i] == '\0'
  {
    seq(n, i => '\0')
  }

  lemma {:induction false} StringsZeros(n: nat)
    ensures Strings(Zeros(n)) == []
  {
    if n > 0 {
      assert Zeros(n)[1..] == Zeros(n - 1);
      StringsZeros(n - 1);
    }
  }

  /** A key and its value, each followed by NULs. */
  lemma StringsPair(key: string, i: nat, value: string, j: nat)
    requires i > 0 && value != [] && '\0' !in key && '\0' !in value
    ensures Strings(key + Zeros(i) + value + Zeros(j)) == StringsOf(Pair(key, value))
  {
    if key != [] {
      StringsOne(key);
    }
    StringsOne(value);
    StringsZeros(i);
    StringsZeros(j);
    StringsConcat(key, Zeros(i));
    StringsConcat(key + Zeros(i), value);
    StringsConcat(key + Zeros(i) + value, Zeros(j));
  }

  lemma {:induction false} UnescapeClean(s: string)
    requires '\0' !in s
    ensures '\0' !in Unescape(s)
  {
    if s == [] || s[0] == '"' || s[0] == '\r' || s[0] == '\n' {
    } else if s[0] != '\\' {
      UnescapeClean(s[1..]);
    } else if |s| == 1 || s[1] == '\r' || s[1] == '\n' || s[1] == '\0' {
    } else {
      assert Escape(s[1]) != '\0';
      UnescapeClean(s[2..]);
    }
  }

  lemma {:induction false} FlatConcat(a: seq<Item>, b: seq<Item>)
    ensures Flat(a + b) == Flat(a) + Flat(b)
  {
    if a == [] {
      assert a + b == b;
    } else {
      assert (a + b)[1..] == a[1..] + b;
      FlatConcat(a[1..], b);
    }
  }

  lemma NamedNone()
    ensures Named([])
  {}

  lemma NamedConcat(a: seq<Item>, b: seq<Item>)
    requires Named(a) && Named(b)
    ensures Named(a + b)
  {}

  lemma {:induction false} ParseLineNamed(line: string)
    ensures Named(ParseLine(line))
    decreases |line|
  {
    hide Span;
    if line == [] || line[0] == ';' {
    } else if IsBlank(line[0]) {
      ParseLineNamed(line[1..]);
    } else if line[0] == '[' {
      HeaderLine(line);
      ParseLineNamed(After(line, Span(line, ']', ']')));
    } else {
      PairNamed(line);
    }
  }

  lemma PairNamed(line: string)
    requires line != "" && line[0] != '['
    ensures Named(PairOf(line))
  {
    hide Span, TrimEnd, TrimStart, Unescape, ValueOf;
    var n := Span(line, '=', '=');
    if n < |line| {
      TrimEndIs(line[..n]);
    }
  }

  /** What the lines give has the shape the lookup in memory relies on. */
  lemma {:induction false} DocumentNamed(text: string)
    ensures Named(Document(text))
    decreases |text|
  {
    hide ParseLine, Named, Span;
    if text != "" {
      var n := Span(text, '\n', '\n');
      ParseLineNamed(text[..n]);
      DocumentNamed(After(text, n));
      NamedConcat(ParseLine(text[..n]), Document(After(text, n)));
    } else {
      NamedNone();
    }
  }

  // ----- position by position -----

  /** The items from a place in a text on, as the splitter meets them; it has put a NUL where a header ended. */
  function Items(s: string): seq<Item>
    decreases |s|
  {
    if s == [] then []
    else if IsBlank(s[0]) || s[0] == '\n' || s[0] == '\0' then Items(s[1..])
    else if s[0] == '[' then
      var n := Span(s, ']', '\n');
      [Section(s[1..n])] + Items(After(s, n))
    else if s[0] == ';' then Items(s[Span(s, '\n', '\n')..])
    else
      var n := Span(s, '\n', '\n');
      assert n > 0;
      PairOf(s[..n]) + Items(s[n..])
  }

  /** The rest of a line, then the rest of the text. */
  function LineThenRest(s: string): seq<Item> {
    var n := Span(s, '\n', '\n');
    ParseLine(s[..n]) + Items(After(s, n))
  }

  lemma BlankStart(s: string)
    requires s != [] && IsBlank(s[0])
    ensures LineThenRest(s) == LineThenRest(s[1..])
  {
    var n := Span(s, '\n', '\n');
    assert n == 1 + Span(s[1..], '\n', '\n');
    hide Items, Span;
    assert s[1..][..n - 1] == s[..n][1..];
    assert After(s[1..], n - 1) == After(s, n);
  }

  lemma HeaderLine(line: string)
    requires line != [] && line[0] == '['
    ensures var m := Span(line, ']', ']'); 0 < m && ParseLine(line) == [Section(line[1..m])] + ParseLine(After(line, m))
  {}

  /** A header ends at its bracket, or with its line. */
  lemma HeaderSpans(s: string)
    requires s != [] && s[0] == '['
    ensures var m, n := Span(s, ']', '\n'), Span(s, '\n', '\n');
            && 0 < m <= n && Span(s[..n], ']', ']') == m && (m == n <==> m == |s| || s[m] != ']')
            && (m < n ==> Span(s[m + 1..], '\n', '\n') == n - m - 1)
  {
    var m, n := Span(s, ']', '\n'), Span(s, '\n', '\n');
    assert m > 0;
    hide Span;
    SpanIs(s, ']', '\n');
    SpanIs(s, '\n', '\n');
    if m < |s| && s[m] == '\n' {
      SpanUnique(s, '\n', '\n', m);
    }
    assert forall i | 0 <= i < m :: s[i] != ']' && s[i] != '\n';
    assert m <= n;
    SpanUnique(s[..n], ']', ']', m);
    if m < n {
      SpanUnique(s[m + 1..], '\n', '\n', n - m - 1);
    }
  }

  lemma HeaderStart(s: string)
    requires s != [] && s[0] == '['
    ensures var m := Span(s, ']', '\n');
            m > 0 && LineThenRest(s) == [Section(s[1..m])] + AfterHeader(s, m)
  {
    hide Items, ParseLine, Span, AfterHeader, After;
    var m, n := Span(s, ']', '\n'), Span(s, '\n', '\n');
    HeaderSpans(s);
    HeaderLine(s[..n]);
    assert s[..n][1..m] == s[1..m];
    Join([Section(s[1..m])], ParseLine(After(s[..n], m)), Items(After(s, n)));
    AfterHeaderIs(s, m, n);
  }

  lemma AfterHeaderIs(s: string, m: nat, n: nat)
    requires m <= n <= |s| && n == Span(s, '\n', '\n') && (m == n <==> m == |s| || s[m] != ']')
    requires m < n ==> Span(s[m + 1..], '\n', '\n') == n - m - 1
    ensures AfterHeader(s, m) == ParseLine(After(s[..n], m)) + Items(After(s, n))
  {
    hide Items, ParseLine, Span;
    if m < n {
      AfterSlice(s, m, n);
    } else {
      EmptyLine();
      assert [] + Items(After(s, n)) == Items(After(s, n));
    }
  }

  lemma AfterSlice(s: string, m: nat, n: nat)
    requires m < n <= |s|
    ensures After(s, m)[..n - m - 1] == After(s[..n], m) && After(After(s, m), n - m - 1) == After(s, n)
  {}

  /** What follows a header on its line, or after it. */
  function AfterHeader(s: string, m: nat): seq<Item> {
    if m < |s| && s[m] == ']' then LineThenRest(After(s, m)) else Items(After(s, m))
  }

  lemma Join(a: seq<Item>, b: seq<Item>, c: seq<Item>)
    ensures (a + b) + c == a + (b + c)
  {}

  lemma EmptyLine()
    ensures ParseLine("") == []
  {}

  lemma {:induction false} ItemsLine(s: string)
    requires '\0' !in s
    ensures Items(s) == LineThenRest(s)
    decreases |s|
  {
    hide ParseLine, LineThenRest, PairOf, Span;
    if s == [] || s[0] == '\n' {
      AtLineEnd(s);
    } else if IsBlank(s[0]) {
      ItemsLine(s[1..]);
      BlankStart(s);
    } else if s[0] == '[' {
      var m := Span(s, ']', '\n');
      HeaderStart(s);
      if m < |s| && s[m] == ']' {
        ItemsLine(After(s, m));
      }
    } else {
      PlainStart(s);
    }
  }

  lemma AtLineEnd(s: string)
    requires s == [] || s[0] == '\n'
    ensures LineThenRest(s) == Items(s)
  {}

  lemma PlainStart(s: string)
    requires s != [] && s[0] != '\n' && !IsBlank(s[0]) && s[0] != '[' && s[0] != '\0'
    ensures LineThenRest(s) == Items(s)
  {
    var n := Span(s, '\n', '\n');
    assert n > 0;
    hide PairOf, Span;
    assert s[..n][0] == s[0];
    SpanIs(s, '\n', '\n');
    ItemsAtLineEnd(s, n);
  }

  lemma ItemsAtLineEnd(s: string, n: nat)
    requires n <= |s| && (n < |s| ==> s[n] == '\n')
    ensures Items(s[n..]) == Items(After(s, n))
  {
    if n < |s| {
      assert s[n..][1..] == s[n + 1..];
    }
  }

  /** The splitter meets what the lines say. */
  lemma {:induction false} ItemsIsDocument(text: string)
    requires '\0' !in text
    ensures Items(text) == Document(text)
    decreases |text|
  {
    hide ParseLine, Span;
    if text != "" {
      ItemsLine(text);
      ItemsIsDocument(After(text, Span(text, '\n', '\n')));
    }
  }
}
