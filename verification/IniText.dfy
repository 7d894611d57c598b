/** The INI parser and printer as functions on text, and how far they undo each other. */
module IniText {
  import opened Bytes

  type Section = map<string, string>
  type Sections = map<string, Section>

  // ----- Strings -----

  predicate Blank(c: char) {
    c == ' ' || c == '\n' || c == '\r'
  }

  function TrimLeft(s: string): string {
    if s != "" && Blank(s[0]) then TrimLeft(s[1..]) else s
  }

  function TrimRight(s: string): string {
    if s != "" && Blank(s[|s| - 1]) then TrimRight(s[..|s| - 1]) else s
  }

  function Trim(s: string): string {
    TrimRight(TrimLeft(s))
  }

  /** find_first_of for a single character. */
  function IndexOf(s: string, c: char): (at: Option<nat>)
    ensures at.None? ==> c !in s
    ensures at.Some? ==> at.value < |s| && s[at.value] == c && c !in s[..at.value]
  {
    if s == "" then None
    else if s[0] == c then Some(0)
    else match IndexOf(s[1..], c)
      case None => None
      case Some(p) =>
        assert s[..p + 1] == [s[0]] + s[1..][..p];
        Some(p + 1)
  }

  /** What getline yields until the end of the file. */
  function Lines(text: string): seq<string>
    decreases |text|
  {
    if text == "" then []
    else match IndexOf(text, '\n')
      case None => [text]
      case Some(p) => [text[..p]] + Lines(text[p + 1..])
  }

  // ----- Parsing -----

  /** The sections so far and the name of the current one. */
  datatype Parse = Parse(sections: Sections, current: string)

  /** The text between the brackets; without a closing bracket, all of it. */
  function SectionName(line: string): string
    requires line != "" && line[0] == '['
  {
    match IndexOf(line, ']')
    case None => Trim(line[1..])
    case Some(p) => Trim(line[1..p])
  }

  /** Key and value around the first '='; without one, the whole line is both. */
  function Entry(line: string): (string, string) {
    match IndexOf(line, '=')
    case None => (Trim(line), Trim(line))
    case Some(p) => (Trim(line[..p]), Trim(line[p + 1..]))
  }

  function GetSection(m: Sections, name: string): Section {
    if name in m then m[name] else map[]
  }

  /** A section header starts its section anew; an entry creates its section if need be. */
  function ParseLine(st: Parse, raw: string): Parse {
    var line := Trim(raw);
    if line == "" then st
    else if line[0] == '[' then
      var name := SectionName(line);
      Parse(st.sections[name := map[]], name)
    else
      var (key, value) := Entry(line);
      st.(sections := st.sections[st.current := GetSection(st.sections, st.current)[key := value]])
  }

  function ParseLines(st: Parse, lines: seq<string>): Parse
    decreases |lines|
  {
    if lines == [] then st else ParseLines(ParseLine(st, lines[0]), lines[1..])
  }

  /** load into what is already there. */
  function Load(m: Sections, text: string): Sections {
    ParseLines(Parse(m, ""), Lines(text)).sections
  }

  // ----- Printing, in the order of std::map -----

  /** std::string's operator <=. */
  predicate AtMost(a: string, b: string) {
    a == "" || (b != "" && (a[0] < b[0] || (a[0] == b[0] && AtMost(a[1..], b[1..]))))
  }

  lemma {:induction false} AtMostTotal(a: string, b: string)
    ensures AtMost(a, b) || AtMost(b, a)
    ensures AtMost(a, b) && AtMost(b, a) ==> a == b
  {
    if a != "" && b != "" && a[0] == b[0] {
      AtMostTotal(a[1..], b[1..]);
      assert a == [a[0]] + a[1..] && b == [b[0]] + b[1..];
    }
  }

  lemma {:induction false} AtMostTransitive(a: string, b: string, c: string)
    requires AtMost(a, b) && AtMost(b, c)
    ensures AtMost(a, c)
  {
    if a != "" && a[0] == b[0] && b[0] == c[0] {
      AtMostTransitive(a[1..], b[1..], c[1..]);
    }
  }

  predicate IsLeast(k: string, keys: set<string>) {
    k in keys && forall x :: x in keys ==> AtMost(k, x)
  }

  lemma {:induction false} LeastExists(keys: set<string>)
    requires keys != {}
    ensures exists k :: IsLeast(k, keys)
  {
    var x :| x in keys;
    var rest := keys - {x};
    if rest == {} {
      AtMostTotal(x, x);
      assert forall y :: y in keys ==> y == x || y in rest;
      assert IsLeast(x, keys);
    } else {
      LeastExists(rest);
      var k :| IsLeast(k, rest);
      AtMostTotal(x, k);
      AtMostTotal(x, x);
      if AtMost(x, k) {
        forall y | y in keys
          ensures AtMost(x, y)
        {
          if y != x {
            AtMostTransitive(x, k, y);
          }
        }
        assert IsLeast(x, keys);
      } else {
        assert IsLeast(k, keys);
      }
    }
  }

  lemma LeastUnique(k: string, k': string, keys: set<string>)
    requires IsLeast(k, keys) && IsLeast(k', keys)
    ensures k == k'
  {
    AtMostTotal(k, k');
  }

  /** The keys from the least to the greatest, each once. */
  ghost function Listing(keys: set<string>): (list: seq<string>)
    ensures forall k :: k in list <==> k in keys
  {
    if keys == {} then []
    else
      LeastExists(keys);
      var k :| IsLeast(k, keys);
      [k] + Listing(keys - {k})
  }

  /** At the first position where they differ a has the smaller character, or a is a proper prefix of b. */
  predicate Before(a: string, b: string) {
    a < b || exists i :: 0 <= i < |a| && i < |b| && a[..i] == b[..i] && a[i] < b[i]
  }

  lemma DifferLater(a: string, b: string, i: nat)
    requires i < |a| && i < |b| && a[..i] == b[..i] && a[i] < b[i]
    ensures i > 0 ==> Before(a[1..], b[1..])
    ensures forall c :: Before([c] + a, [c] + b)
  {
    if i > 0 {
      assert a[1..][..i - 1] == a[..i][1..] && b[1..][..i - 1] == b[..i][1..];
      assert a[1..][i - 1] < b[1..][i - 1];
    }
    forall c
      ensures Before([c] + a, [c] + b)
    {
      var a', b' := [c] + a, [c] + b;
      assert a'[..i + 1] == [c] + a[..i] && b'[..i + 1] == [c] + b[..i];
      assert a'[i + 1] < b'[i + 1];
    }
  }

  lemma BeforeTail(a: string, b: string)
    requires a != "" && b != "" && a[0] == b[0]
    ensures Before(a, b) <==> Before(a[1..], b[1..])
  {
    var a', b' := a[1..], b[1..];
    assert a == [a[0]] + a' && b == [a[0]] + b';
    if a < b {
      assert a' < b';
    } else if Before(a, b) {
      var i: nat :| i < |a| && i < |b| && a[..i] == b[..i] && a[i] < b[i];
      DifferLater(a, b, i);
    } else if Before(a', b') && !(a' < b') {
      var i: nat :| i < |a'| && i < |b'| && a'[..i] == b'[..i] && a'[i] < b'[i];
      DifferLater(a', b', i);
    }
  }

  lemma BeforeFront(a: string, b: string)
    requires a == "" || b == "" || a[0] != b[0]
    ensures Before(a, b) <==> b != "" && (a == "" || a[0] < b[0])
  {
    if a != "" && b != "" && a[0] < b[0] {
      assert a[..0] == b[..0];
    }
  }

  lemma {:induction false} AtMostMeaning(a: string, b: string)
    ensures AtMost(a, b) <==> a == b || Before(a, b)
  {
    hide Before;
    if a != "" && b != "" && a[0] == b[0] {
      AtMostMeaning(a[1..], b[1..]);
      BeforeTail(a, b);
      assert a == [a[0]] + a[1..] && b == [a[0]] + b[1..];
    } else {
      BeforeFront(a, b);
    }
  }

  lemma {:induction false} ListingAscends(keys: set<string>, i: nat, j: nat)
    requires i < j < |Listing(keys)|
    ensures AtMost(Listing(keys)[i], Listing(keys)[j]) && Listing(keys)[i] != Listing(keys)[j]
    decreases keys
  {
    hide AtMost;
    var k := Listing(keys)[0];
    assert exists x :: IsLeast(x, keys) && Listing(keys) == [x] + Listing(keys - {x});
    var rest := Listing(keys - {k});
    if i == 0 {
      assert Listing(keys)[j] == rest[j - 1] && rest[j - 1] in rest;
    } else {
      ListingAscends(keys - {k}, i - 1, j - 1);
    }
  }

  /** Keys are listed in the order of their characters: the earlier of two comes before the later. */
  lemma ListingOrder(keys: set<string>, i: nat, j: nat)
    requires i < |Listing(keys)| && j < |Listing(keys)|
    ensures i < j <==> Before(Listing(keys)[i], Listing(keys)[j])
  {
    hide AtMost, Listing, Before;
    var a, b := Listing(keys)[i], Listing(keys)[j];
    AtMostMeaning(a, b);
    AtMostMeaning(b, a);
    AtMostTotal(a, b);
    NotBeforeItself(a);
    if i < j {
      ListingAscends(keys, i, j);
    } else if j < i {
      ListingAscends(keys, j, i);
    }
  }

  lemma NotBeforeItself(a: string)
    ensures !Before(a, a)
  {}

  function EntryLine(key: string, value: string): string {
    key + " = " + value
  }

  function HeaderLine(name: string): string {
    "[" + name + "]"
  }

  function EntryLines(s: Section, keys: seq<string>): seq<string>
    requires forall k :: k in keys ==> k in s
  {
    if keys == [] then [] else [EntryLine(keys[0], s[keys[0]])] + EntryLines(s, keys[1..])
  }

  ghost function SectionLines(name: string, s: Section): seq<string> {
    [HeaderLine(name)] + EntryLines(s, Listing(s.Keys)) + [""]
  }

  ghost function PrintLines(m: Sections, names: seq<string>): seq<string>
    requires forall n :: n in names ==> n in m
  {
    if names == [] then [] else SectionLines(names[0], m[names[0]]) + PrintLines(m, names[1..])
  }

  function Unlines(lines: seq<string>): string {
    if lines == [] then "" else lines[0] + "\n" + Unlines(lines[1..])
  }

  /** str(). */
  ghost function Print(m: Sections): string {
    Unlines(PrintLines(m, Listing(m.Keys)))
  }

  /** A section is its name in brackets, an entry a line, and an empty line. */
  lemma PrintOneEntry(name: string, key: string, value: string)
    ensures Print(map[name := map[key := value]]) == "[" + name + "]\n" + key + " = " + value + "\n\n"
  {
    var s: Section := map[key := value];
    var m: Sections := map[name := s];
    ListingOne(name);
    ListingOne(key);
    assert m.Keys == {name} && s.Keys == {key};
    assert EntryLines(s, [key]) == [key + " = " + value];
    assert PrintLines(m, [name]) == ["[" + name + "]", key + " = " + value, ""];
    UnlinesThree("[" + name + "]", key + " = " + value);
  }

  lemma ListingOne(k: string)
    ensures Listing({k}) == [k]
  {
    assert Listing({k})[0] in Listing({k});
    assert {k} - {k} == {};
  }

  lemma UnlinesThree(a: string, b: string)
    ensures Unlines([a, b, ""]) == a + "\n" + b + "\n\n"
  {
    assert [a, b, ""][1..] == [b, ""] && [b, ""][1..] == [""];
    assert Unlines([""]) == "\n" by { assert [""][1..] == [] && "" + "\n" + "" == "\n"; }
    assert Unlines([b, ""]) == b + "\n" + "\n";
    assert Unlines([a, b, ""]) == a + "\n" + (b + "\n" + "\n");
  }

  // ----- Normal sections: the ones a parse can yield -----

  predicate Trimmed(s: string) {
    s == "" || (!Blank(s[0]) && !Blank(s[|s| - 1]))
  }

  predicate NormalName(s: string) {
    Trimmed(s) && '\n' !in s && ']' !in s
  }

  predicate NormalKey(s: string) {
    Trimmed(s) && '\n' !in s && '=' !in s && (s == "" || s[0] != '[')
  }

  predicate NormalValue(s: string) {
    Trimmed(s) && '\n' !in s
  }

  ghost predicate NormalSection(s: Section) {
    forall k :: k in s ==> NormalKey(k) && NormalValue(s[k])
  }

  ghost predicate Normal(m: Sections) {
    forall n :: n in m ==> NormalName(n) && NormalSection(m[n])
  }

  lemma {:induction false} TrimLeftTrims(s: string)
    ensures TrimLeft(s) == "" || !Blank(TrimLeft(s)[0])
    ensures forall c :: c in TrimLeft(s) ==> c in s
    ensures s != "" && !Blank(s[0]) ==> TrimLeft(s) == s
  {
    if s != "" && Blank(s[0]) {
      TrimLeftTrims(s[1..]);
    }
  }

  lemma {:induction false} TrimRightTrims(s: string)
    ensures TrimRight(s) == "" || !Blank(TrimRight(s)[|TrimRight(s)| - 1])
    ensures TrimRight(s) <= s
    ensures s != "" && !Blank(s[0]) ==> TrimRight(s) != ""
    ensures s != "" && !Blank(s[|s| - 1]) ==> TrimRight(s) == s
  {
    if s != "" && Blank(s[|s| - 1]) {
      TrimRightTrims(s[..|s| - 1]);
    }
  }

  lemma TrimTrims(s: string)
    ensures Trimmed(Trim(s))
    ensures forall c :: c in Trim(s) ==> c in s
    ensures s != "" && !Blank(s[0]) ==> Trim(s) != "" && Trim(s)[0] == s[0]
  {
    TrimLeftTrims(s);
    TrimRightTrims(TrimLeft(s));
  }

  lemma TrimTrimmed(s: string)
    requires Trimmed(s)
    ensures Trim(s) == s
  {}

  // ----- What a line of text means -----

  predicate AllBlank(s: string) {
    forall c :: c in s ==> c in " \n\r"
  }

  lemma {:induction false} TrimLeftBlank(p: string, s: string)
    requires AllBlank(p)
    ensures TrimLeft(p + s) == TrimLeft(s)
  {
    if p == "" {
      assert p + s == s;
    } else {
      assert (p + s)[1..] == p[1..] + s;
      assert p[0] in p;
      TrimLeftBlank(p[1..], s);
    }
  }

  lemma {:induction false} TrimRightBlank(s: string, q: string)
    requires AllBlank(q)
    ensures TrimRight(s + q) == TrimRight(s)
    decreases |q|
  {
    if q == "" {
      assert s + q == s;
    } else {
      var n := |q| - 1;
      assert (s + q)[..|s| + n] == s + q[..n];
      assert q[n] in q;
      TrimRightBlank(s, q[..n]);
    }
  }

  /** Trim takes the blanks, which are spaces and line ends, off both ends and nothing else. */
  lemma TrimBlanks(p: string, s: string, q: string)
    requires AllBlank(p) && AllBlank(q)
    requires s == "" || (s[0] !in " \n\r" && s[|s| - 1] !in " \n\r")
    ensures Trim(p + s + q) == s
  {
    assert p + s + q == p + (s + q);
    TrimLeftBlank(p, s + q);
    if s == "" {
      assert s + q == q + "";
      TrimLeftBlank(q, "");
    } else {
      TrimLeftTrims(s + q);
      TrimRightBlank(s, q);
      TrimTrimmed(s);
    }
  }

  /** The two ways a text splits: blanks in front of what TrimLeft keeps, and behind what TrimRight keeps. */
  lemma {:induction false} LeftBlanks(s: string) returns (p: string)
    ensures s == p + TrimLeft(s) && AllBlank(p)
  {
    if s != "" && Blank(s[0]) {
      var rest := LeftBlanks(s[1..]);
      p := [s[0]] + rest;
    } else {
      p := "";
    }
  }

  lemma {:induction false} RightBlanks(s: string) returns (q: string)
    ensures s == TrimRight(s) + q && AllBlank(q)
  {
    if s != "" && Blank(s[|s| - 1]) {
      var rest := RightBlanks(s[..|s| - 1]);
      q := rest + [s[|s| - 1]];
      assert s == s[..|s| - 1] + [s[|s| - 1]];
    } else {
      q := "";
    }
  }

  /** Trimming one end first changes nothing. */
  lemma TrimHalf(s: string)
    ensures Trim(TrimLeft(s)) == Trim(s) && Trim(TrimRight(s)) == Trim(s)
  {
    TrimLeftTrims(s);
    TrimLeftTrims(TrimLeft(s));
    var right := TrimRight(s);
    var behind := RightBlanks(s);
    var p, t, q := Parts(right);
    BlankConcat(q, behind);
    hide TrimLeft, TrimRight, Trim, AllBlank;
    TrimBlanks(p, t, q + behind);
    ConcatAssoc(p + t, q, behind);
  }

  /** Every text is its trimmed text between blanks. */
  lemma Parts(s: string) returns (p: string, t: string, q: string)
    ensures t == Trim(s) && s == p + t + q && AllBlank(p) && AllBlank(q)
    ensures t == "" || (t[0] !in " \n\r" && t[|t| - 1] !in " \n\r")
  {
    p := LeftBlanks(s);
    q := RightBlanks(TrimLeft(s));
    t := Trim(s);
    TrimTrims(s);
    hide TrimLeft, TrimRight, AllBlank;
    ConcatAssoc(p, t, q);
  }

  lemma BlankConcat(a: string, b: string)
    requires AllBlank(a) && AllBlank(b)
    ensures AllBlank(a + b)
  {}

  /** A line that holds a character that is no blank is trimmed around it. */
  lemma TrimAround(a: string, mid: string, b: string)
    requires mid != "" && !Blank(mid[0]) && !Blank(mid[|mid| - 1])
    ensures Trim(a + mid + b) == TrimLeft(a) + mid + TrimRight(b)
  {
    var p := LeftBlanks(a);
    var q := RightBlanks(b);
    var left, right := TrimLeft(a), TrimRight(b);
    TrimLeftTrims(a);
    TrimRightTrims(b);
    hide TrimLeft, TrimRight, Trim, AllBlank;
    var kept := left + mid + right;
    assert kept[0] == if left == "" then mid[0] else left[0];
    assert kept[|kept| - 1] == if right == "" then mid[|mid| - 1] else right[|right| - 1];
    TrimBlanks(p, kept, q);
    assert a + mid + b == p + kept + q by {
      Regroup(p, left, mid, right, q);
    }
  }

  lemma Regroup(p: string, left: string, mid: string, right: string, q: string)
    ensures (p + left) + mid + (right + q) == p + (left + mid + right) + q
  {}

  function SetEntry(st: Parse, key: string, value: string): Parse {
    st.(sections := st.sections[st.current := GetSection(st.sections, st.current)[key := value]])
  }

  function OpenSection(st: Parse, name: string): Parse {
    Parse(st.sections[name := map[]], name)
  }

  /** A line with '=' sets the trimmed text in front of the first one to the trimmed text behind it. */
  lemma EntryMeaning(st: Parse, a: string, b: string)
    requires '=' !in a
    requires Trim(a) == "" || Trim(a)[0] != '['
    ensures ParseLine(st, a + "=" + b) == SetEntry(st, Trim(a), Trim(b))
  {
    TrimAround(a, "=", b);
    TrimHalf(a);
    TrimHalf(b);
    TrimLeftTrims(a);
    TrimRightTrims(TrimLeft(a));
    var left, right := TrimLeft(a), TrimRight(b);
    var line := left + "=" + right;
    IndexOfFirst(left, '=', right);
    assert line[..|left|] == left && line[|left| + 1..] == right;
    assert line[0] == if left == "" then '=' else left[0];
    hide Trim;
  }

  /** A line without '=' sets its trimmed text to itself. */
  lemma BareMeaning(st: Parse, line: string)
    requires '=' !in line && Trim(line) != "" && Trim(line)[0] != '['
    ensures ParseLine(st, line) == SetEntry(st, Trim(line), Trim(line))
  {
    TrimTrims(line);
    TrimTrimmed(Trim(line));
    IndexOfFirst(Trim(line), '=', "");
  }

  /** A line that starts with '[' starts a section anew, named by the trimmed text up to the first ']'. */
  lemma HeaderMeaning(st: Parse, p: string, a: string, b: string)
    requires AllBlank(p) && ']' !in a
    ensures ParseLine(st, p + "[" + a + "]" + b) == OpenSection(st, Trim(a))
  {
    var right := TrimRight(b);
    assert p + "[" + a + "]" + b == p + ("[" + a + "]") + b;
    TrimAround(p, "[" + a + "]", b);
    TrimLeftBlank(p, "");
    assert p + "" == p;
    var line := "" + ("[" + a + "]") + right;
    assert line == ("[" + a) + [']'] + right;
    IndexOfFirst("[" + a, ']', right);
    assert line[1..1 + |a|] == a;
  }

  /** Without a ']' the name is all the trimmed text behind the '['. */
  lemma OpenHeaderMeaning(st: Parse, p: string, a: string)
    requires AllBlank(p) && ']' !in a
    ensures ParseLine(st, p + "[" + a) == OpenSection(st, Trim(a))
  {
    var right := TrimRight(a);
    TrimAround(p, "[", a);
    TrimLeftBlank(p, "");
    assert p + "" == p;
    TrimHalf(a);
    TrimRightTrims(a);
    var line := "" + "[" + right;
    IndexOfFirst(line, ']', "");
    assert line[1..] == right;
  }

  /** A blank line means nothing. */
  lemma BlankMeaning(st: Parse, line: string)
    requires AllBlank(line)
    ensures ParseLine(st, line) == st
  {
    assert "" + line == line;
    TrimBlanks("", "", line);
  }

  /** The lines of a text are what stands between its line ends, with no empty one behind the last. */
  lemma LineMeaning(st: Parse, line: string, more: string)
    requires '\n' !in line
    ensures ParseLines(st, Lines(line + "\n" + more)) == ParseLines(ParseLine(st, line), Lines(more))
    ensures ParseLines(st, Lines(line)) == ParseLine(st, line)
  {
    hide ParseLine;
    IndexOfFirst(line, '\n', more);
    var text := line + "\n" + more;
    assert text[..|line|] == line && text[|line| + 1..] == more;
    var lines := [line] + Lines(more);
    assert lines[1..] == Lines(more) && lines[0] == line;
    if line == "" {
      BlankMeaning(st, line);
    } else {
      ParseOne(st, line);
    }
  }

  /** A header and an entry below it, as the server's own configuration starts. */
  lemma LoadOneEntry(name: string, key: string, value: string)
    requires ']' !in name && '=' !in key && '\n' !in name + key + value
    requires Trim(key) == "" || Trim(key)[0] != '['
    ensures
      var text := ("[" + name + "]") + "\n" + ((key + "=" + value) + "\n" + "");
      Load(map[], text) == map[Trim(name) := map[Trim(key) := Trim(value)]]
  {
    hide ParseLine, ParseLines, Lines, Trim, AllBlank;
    var first, second := "[" + name + "]", key + "=" + value;
    var st := Parse(map[], "");
    var st' := OpenSection(st, Trim(name));
    LineMeaning(st, first, second + "\n" + "");
    BlankNothing();
    HeaderMeaning(st, "", name, "");
    assert "" + "[" + name + "]" + "" == first;
    LineMeaning(st', second, "");
    EntryMeaning(st', key, value);
    assert Lines("") == [] by { NoLines(); }
    ParseNothing(SetEntry(st', Trim(key), Trim(value)));
  }

  lemma BlankNothing()
    ensures AllBlank("")
  {}

  lemma NoLines()
    ensures Lines("") == []
  {}

  // ----- Every parse is normal -----

  lemma SectionNameNormal(line: string)
    requires line != "" && line[0] == '[' && '\n' !in line
    ensures NormalName(SectionName(line))
  {
    match IndexOf(line, ']')
    case None => TrimTrims(line[1..]);
    case Some(p) =>
      assert ']' !in line[1..p] by {
        assert forall c :: c in line[1..p] ==> c in line[..p];
      }
      TrimTrims(line[1..p]);
  }

  lemma EntryNormal(line: string)
    requires line != "" && line[0] != '[' && !Blank(line[0]) && '\n' !in line
    ensures NormalKey(Entry(line).0) && NormalValue(Entry(line).1)
  {
    match IndexOf(line, '=')
    case None => TrimTrims(line);
    case Some(p) =>
      TrimTrims(line[..p]);
      TrimTrims(line[p + 1..]);
  }

  lemma ParseLineNormal(st: Parse, raw: string)
    requires Normal(st.sections) && NormalName(st.current) && '\n' !in raw
    ensures Normal(ParseLine(st, raw).sections) && NormalName(ParseLine(st, raw).current)
  {
    hide SectionName, Entry, Trim, NormalName, NormalKey, NormalValue;
    var line := Trim(raw);
    TrimTrims(raw);
    if line != "" {
      if line[0] == '[' {
        SectionNameNormal(line);
      } else {
        EntryNormal(line);
      }
    }
  }

  lemma {:induction false} ParseLinesNormal(st: Parse, lines: seq<string>)
    requires Normal(st.sections) && NormalName(st.current)
    requires forall i :: 0 <= i < |lines| ==> '\n' !in lines[i]
    ensures Normal(ParseLines(st, lines).sections)
    decreases |lines|
  {
    hide ParseLine, Normal, NormalName;
    if lines != [] {
      ParseLineNormal(st, lines[0]);
      ParseLinesNormal(ParseLine(st, lines[0]), lines[1..]);
    }
  }

  lemma {:induction false} LinesAreLines(text: string)
    ensures forall i :: 0 <= i < |Lines(text)| ==> '\n' !in Lines(text)[i]
    decreases |text|
  {
    if text != "" {
      match IndexOf(text, '\n')
      case None =>
      case Some(p) => LinesAreLines(text[p + 1..]);
    }
  }

  /** Whatever the text: loading keeps sections normal. */
  lemma LoadNormal(m: Sections, text: string)
    requires Normal(m)
    ensures Normal(Load(m, text))
  {
    hide ParseLines, Normal;
    LinesAreLines(text);
    assert NormalName("");
    ParseLinesNormal(Parse(m, ""), Lines(text));
  }

  // ----- Reading back what was printed -----

  lemma {:induction false} IndexOfFirst(s: string, c: char, t: string)
    requires c !in s
    ensures IndexOf(s + [c] + t, c) == Some(|s|)
    ensures IndexOf(s, c) == None
  {
    var all := s + [c] + t;
    if s != "" {
      assert all[1..] == s[1..] + [c] + t;
      IndexOfFirst(s[1..], c, t);
    }
  }

  lemma {:induction false} LinesOfUnlines(lines: seq<string>)
    requires forall i :: 0 <= i < |lines| ==> '\n' !in lines[i]
    ensures Lines(Unlines(lines)) == lines
    decreases |lines|
  {
    if lines != [] {
      var text := Unlines(lines);
      var more := Unlines(lines[1..]);
      assert text == lines[0] + ['\n'] + more;
      IndexOfFirst(lines[0], '\n', more);
      assert text[|lines[0]| + 1..] == more && text[..|lines[0]|] == lines[0];
      LinesOfUnlines(lines[1..]);
    }
  }

  lemma HeaderReadsBack(st: Parse, name: string)
    requires NormalName(name)
    ensures ParseLine(st, HeaderLine(name)) == OpenSection(st, name)
  {
    hide ParseLine, Trim;
    HeaderMeaning(st, "", name, "");
    assert "" + "[" + name + "]" + "" == HeaderLine(name);
    TrimTrimmed(name);
  }

  lemma EntryReadsBack(st: Parse, key: string, value: string)
    requires NormalKey(key) && NormalValue(value)
    ensures ParseLine(st, EntryLine(key, value)) == SetEntry(st, key, value)
  {
    hide ParseLine, Trim;
    TrimBlanks("", key, " ");
    TrimBlanks(" ", value, "");
    assert "" + key + " " == key + " " && " " + value + "" == " " + value;
    assert EntryLine(key, value) == (key + " ") + "=" + (" " + value);
    EntryMeaning(st, key + " ", " " + value);
  }

  lemma {:induction false} ParseConcat(st: Parse, a: seq<string>, b: seq<string>)
    ensures ParseLines(st, a + b) == ParseLines(ParseLines(st, a), b)
    decreases |a|
  {
    hide ParseLine;
    if a == [] {
      assert a + b == b;
    } else {
      assert (a + b)[1..] == a[1..] + b;
      ParseConcat(ParseLine(st, a[0]), a[1..], b);
    }
  }

  /** The given keys of `from`, one after the other, on top of what is there. */
  function Merge<V>(into: map<string, V>, from: map<string, V>, keys: seq<string>): map<string, V>
    requires forall k :: k in keys ==> k in from
    decreases |keys|
  {
    if keys == [] then into else Merge(into[keys[0] := from[keys[0]]], from, keys[1..])
  }

  lemma {:induction false} MergeMeaning<V>(into: map<string, V>, from: map<string, V>, keys: seq<string>)
    requires forall k :: k in keys ==> k in from
    ensures Merge(into, from, keys) == into + map k | k in keys :: from[k]
    decreases |keys|
  {
    if keys != [] {
      MergeMeaning(into[keys[0] := from[keys[0]]], from, keys[1..]);
      assert forall k :: k in keys <==> k == keys[0] || k in keys[1..];
    }
  }

  lemma MergeAll<V>(from: map<string, V>)
    ensures Merge(map[], from, Listing(from.Keys)) == from
  {
    MergeMeaning(map[], from, Listing(from.Keys));
  }

  lemma {:induction false} EntriesReadBack(st: Parse, s: Section, keys: seq<string>)
    requires NormalSection(s) && forall k :: k in keys ==> k in s
    requires st.current in st.sections
    ensures ParseLines(st, EntryLines(s, keys))
         == st.(sections := st.sections[st.current := Merge(st.sections[st.current], s, keys)])
    decreases |keys|
  {
    hide ParseLine, EntryLine, NormalKey, NormalValue;
    if keys == [] {
      assert st.sections[st.current := st.sections[st.current]] == st.sections;
    } else {
      var k := keys[0];
      EntryReadsBack(st, k, s[k]);
      var st' := ParseLine(st, EntryLine(k, s[k]));
      EntriesReadBack(st', s, keys[1..]);
      var all := [EntryLine(k, s[k])] + EntryLines(s, keys[1..]);
      assert all[1..] == EntryLines(s, keys[1..]);
      OneSlot(st.sections, st.current, st.sections[st.current][k := s[k]],
              Merge(st'.sections[st.current], s, keys[1..]));
    }
  }

  lemma OneSlot(m: Sections, name: string, first: Section, then': Section)
    ensures m[name := first][name := then'] == m[name := then']
  {}

  lemma SectionReadsBack(st: Parse, name: string, s: Section)
    requires NormalName(name) && NormalSection(s)
    ensures ParseLines(st, SectionLines(name, s)) == Parse(st.sections[name := s], name)
  {
    hide HeaderLine, EntryLines, NormalSection, NormalName, Merge;
    var header, entries := [HeaderLine(name)], EntryLines(s, Listing(s.Keys));
    var st1 := ParseLine(st, HeaderLine(name));
    HeaderReadsBack(st, name);
    EntriesReadBack(st1, s, Listing(s.Keys));
    MergeAll(s);
    OneSlot(st.sections, name, map[], s);
    ParseConcat(st, header, entries + [""]);
    ParseConcat(st1, entries, [""]);
    assert SectionLines(name, s) == header + (entries + [""]);
    assert ParseLines(st, header) == st1 by { ParseOne(st, HeaderLine(name)); }
    var st2 := ParseLines(st1, entries);
    assert ParseLines(st2, [""]) == st2 by { ParseOne(st2, ""); TrimTrimmed(""); }
  }

  lemma ParseOne(st: Parse, line: string)
    ensures ParseLines(st, [line]) == ParseLine(st, line)
  {}

  lemma {:induction false} SectionsReadBack(st: Parse, m: Sections, names: seq<string>)
    requires Normal(m) && forall n :: n in names ==> n in m
    ensures ParseLines(st, PrintLines(m, names)).sections == Merge(st.sections, m, names)
    decreases |names|
  {
    hide SectionLines, NormalSection, NormalName, ParseLines;
    if names == [] {
      assert ParseLines(st, []) == st by { ParseNothing(st); }
    } else {
      var n := names[0];
      SectionReadsBack(st, n, m[n]);
      ParseConcat(st, SectionLines(n, m[n]), PrintLines(m, names[1..]));
      SectionsReadBack(Parse(st.sections[n := m[n]], n), m, names[1..]);
    }
  }

  lemma ParseNothing(st: Parse)
    ensures ParseLines(st, []) == st
  {}

  // ----- Printed lines hold no line break -----

  predicate NoBreaks(lines: seq<string>) {
    forall i :: 0 <= i < |lines| ==> '\n' !in lines[i]
  }

  lemma {:induction false} EntryLinesNoBreaks(s: Section, keys: seq<string>)
    requires NormalSection(s) && forall k :: k in keys ==> k in s
    ensures NoBreaks(EntryLines(s, keys))
    decreases |keys|
  {
    if keys != [] {
      EntryLinesNoBreaks(s, keys[1..]);
      assert NormalKey(keys[0]) && NormalValue(s[keys[0]]);
    }
  }

  lemma {:induction false} PrintLinesNoBreaks(m: Sections, names: seq<string>)
    requires Normal(m) && forall n :: n in names ==> n in m
    ensures NoBreaks(PrintLines(m, names))
    decreases |names|
  {
    hide EntryLines;
    if names != [] {
      var n := names[0];
      EntryLinesNoBreaks(m[n], Listing(m[n].Keys));
      assert NormalName(n);
      PrintLinesNoBreaks(m, names[1..]);
    }
  }

  /**
   The printer and the parser undo each other exactly on normal sections: those whose names, keys
   and values are trimmed and free of the characters that would be read as structure.
   */
  lemma PrintThenParse(m: Sections)
    ensures Load(map[], Print(m)) == m <==> Normal(m)
  {
    hide Normal, ParseLines, PrintLines, Unlines, Lines, Merge;
    assert Normal(map[]) by { EmptyNormal(); }
    LoadNormal(map[], Print(m));
    if Normal(m) {
      var names := Listing(m.Keys);
      PrintLinesNoBreaks(m, names);
      LinesOfUnlines(PrintLines(m, names));
      SectionsReadBack(Parse(map[], ""), m, names);
      MergeAll(m);
    }
  }

  lemma EmptyNormal()
    ensures Normal(map[])
  {}

  /** Normal form: for every text, parsing what the parse prints gives the parse again. */
  lemma ParsePrintParse(text: string)
    ensures Load(map[], Print(Load(map[], text))) == Load(map[], text)
  {
    hide Normal, Load, Print;
    EmptyNormal();
    LoadNormal(map[], text);
    PrintThenParse(Load(map[], text));
  }
}
