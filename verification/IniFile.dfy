/** The INI file object: sections in memory, loaded, changed and printed in place. */
module IniFile {
  import opened Bytes
  import opened IniText

  // ----- Printing step by step -----

  lemma ListingStep(k: string, keys: set<string>)
    requires IsLeast(k, keys)
    ensures Listing(keys) == [k] + Listing(keys - {k})
  {
    var k' := Listing(keys)[0];
    assert exists j :: IsLeast(j, keys) && Listing(keys) == [j] + Listing(keys - {j});
    var j :| IsLeast(j, keys) && Listing(keys) == [j] + Listing(keys - {j});
    LeastUnique(k, j, keys);
  }

  lemma {:induction false} UnlinesConcat(a: seq<string>, b: seq<string>)
    ensures Unlines(a + b) == Unlines(a) + Unlines(b)
    decreases |a|
  {
    if a == [] {
      assert a + b == b;
    } else {
      assert (a + b)[1..] == a[1..] + b;
      UnlinesConcat(a[1..], b);
      assert Unlines(a + b) == a[0] + "\n" + (Unlines(a[1..]) + Unlines(b));
    }
  }

  lemma NoEntries(s: Section)
    ensures Listing({}) == [] && Unlines(EntryLines(s, [])) == ""
  {}

  lemma EntriesStep(s: Section, k: string, rest: set<string>)
    requires rest <= s.Keys && IsLeast(k, rest)
    ensures Unlines(EntryLines(s, Listing(rest)))
         == (EntryLine(k, s[k]) + "\n") + Unlines(EntryLines(s, Listing(rest - {k})))
  {
    hide EntryLine;
    ListingStep(k, rest);
    var more := EntryLines(s, Listing(rest - {k}));
    assert Listing(rest)[1..] == Listing(rest - {k});
    assert ([EntryLine(k, s[k])] + more)[1..] == more;
  }

  /** The entries of a section, in key order, each on a line of its own. */
  method PrintEntries(s: Section) returns (text: string)
    ensures text == Unlines(EntryLines(s, Listing(s.Keys)))
  {
    text := "";
    var rest := s.Keys;
    ghost var all := Unlines(EntryLines(s, Listing(s.Keys)));
    hide EntryLines, EntryLine, Unlines, Listing, IsLeast;
    NoEntries(s);
    assert "" + all == all;
    while rest != {}
      invariant rest <= s.Keys
      invariant text + Unlines(EntryLines(s, Listing(rest))) == all
      decreases |rest|
    {
      LeastExists(rest);
      var k :| k in rest && IsLeast(k, rest);
      EntriesStep(s, k, rest);
      ConcatAssoc(text, EntryLine(k, s[k]) + "\n", Unlines(EntryLines(s, Listing(rest - {k}))));
      text := text + (EntryLine(k, s[k]) + "\n");
      rest := rest - {k};
    }
  }

  class IniFile {
    var filename: string
    var sections: Sections

    constructor ()
      ensures sections == map[]
    {
      filename := "";
      sections := map[];
    }

    /**
     Read a file on top of what is there; content is None if it cannot be opened. The result is
     false either way, as in the source.
     */
    method LoadFile(filename: string, content: Option<string>) returns (ok: bool)
      modifies this
      ensures !ok && this.filename == filename
      ensures sections == match content case None => old(sections) case Some(text) => Load(old(sections), text)
    {
      this.filename := filename;
      if content.None? {
        return false;
      }
      ghost var total := Load(sections, content.value);
      var text, section := content.value, "";
      while text != ""
        invariant ParseLines(Parse(sections, section), Lines(text)).sections == total
        invariant this.filename == filename
        decreases |text|
      {
        var eol := IndexOf(text, '\n');
        var raw := if eol.Some? then text[..eol.value] else text;
        ghost var lines := Lines(text);
        text := if eol.Some? then text[eol.value + 1..] else "";
        assert lines == [raw] + Lines(text) && lines[1..] == Lines(text);
        var line := Trim(raw);
        if line == "" {
          continue;
        }
        if line[0] == '[' {
          section := SectionName(line);
          sections := sections[section := map[]];
        } else {
          var (key, value) := Entry(line);
          sections := sections[section := GetSection(sections, section)[key := value]];
        }
      }
      ok := false;
    }

    method Str() returns (text: string)
      ensures text == Print(sections)
    {
      hide Print, PrintLines, EntryLines, Unlines, Listing, IsLeast, HeaderLine;
      text := "";
      var rest := sections.Keys;
      PrintEnds(sections);
      while rest != {}
        invariant rest <= sections.Keys
        invariant text + Unlines(PrintLines(sections, Listing(rest))) == Print(sections)
        decreases |rest|
      {
        LeastIsKey(rest);
        var n :| n in rest && IsLeast(n, rest);
        var entries := PrintEntries(sections[n]);
        PrintStep(sections, n, rest, entries);
        var block := HeaderLine(n) + "\n" + entries + "\n";
        ConcatAssoc(text, block, Unlines(PrintLines(sections, Listing(rest - {n}))));
        text := text + block;
        rest := rest - {n};
      }
    }

    predicate Has(section: string, key: string)
      reads this
    {
      section in sections && key in sections[section]
    }

    /** A missing section or key is created with an empty value, as operator[] of std::map does. */
    method Get(section: string, key: string) returns (value: string)
      modifies this
      ensures filename == old(filename)
      ensures value == if key in GetSection(old(sections), section) then old(sections)[section][key] else ""
      ensures sections == old(sections)[section := GetSection(old(sections), section)[key := value]]
      ensures key in GetSection(old(sections), section) ==> sections == old(sections)
      ensures Has(section, key)
    {
      var s := GetSection(sections, section);
      value := if key in s then s[key] else "";
      sections := sections[section := s[key := value]];
      assert key in s ==> s[key := value] == s;
    }

    method Set(section: string, key: string, value: string)
      modifies this
      ensures filename == old(filename)
      ensures sections == old(sections)[section := GetSection(old(sections), section)[key := value]]
      ensures Has(section, key)
      ensures Normal(old(sections)) ==>
        (Normal(sections) <==> NormalName(section) && NormalKey(key) && NormalValue(value))
    {
      sections := sections[section := GetSection(sections, section)[key := value]];
      if Normal(old(sections)) {
        SetNormal(old(sections), section, key, value);
      }
    }

    method Remove(section: string, key: string)
      modifies this
      ensures filename == old(filename)
      ensures sections == if section in old(sections) then old(sections)[section := old(sections)[section] - {key}]
                          else old(sections)
      ensures !Has(section, key)
    {
      if section in sections {
        sections := sections[section := sections[section] - {key}];
      }
    }

    method RemoveSection(section: string)
      modifies this
      ensures filename == old(filename)
      ensures sections == old(sections) - {section}
    {
      sections := sections - {section};
    }

    method Clear()
      modifies this
      ensures filename == old(filename)
      ensures sections == map[]
    {
      sections := map[];
    }
  }

  lemma SetNormal(m: Sections, section: string, key: string, value: string)
    requires Normal(m)
    ensures Normal(m[section := GetSection(m, section)[key := value]])
       <==> NormalName(section) && NormalKey(key) && NormalValue(value)
  {
    hide NormalName, NormalKey, NormalValue;
    var m' := m[section := GetSection(m, section)[key := value]];
    if Normal(m') {
      assert section in m' && NormalSection(m'[section]) && key in m'[section];
    }
  }

  lemma LeastIsKey(keys: set<string>)
    requires keys != {}
    ensures exists k :: k in keys && IsLeast(k, keys)
  {
    LeastExists(keys);
  }

  /** Before the first section all is still to be printed, and after the last one nothing. */
  lemma PrintEnds(m: Sections)
    ensures "" + Unlines(PrintLines(m, Listing(m.Keys))) == Print(m)
    ensures Unlines(PrintLines(m, Listing({}))) == ""
  {}

  lemma PrintStep(m: Sections, n: string, rest: set<string>, entries: string)
    requires rest <= m.Keys && IsLeast(n, rest)
    requires entries == Unlines(EntryLines(m[n], Listing(m[n].Keys)))
    ensures Unlines(PrintLines(m, Listing(rest)))
         == (HeaderLine(n) + "\n" + entries + "\n") + Unlines(PrintLines(m, Listing(rest - {n})))
  {
    hide EntryLines, HeaderLine, Unlines;
    ListingStep(n, rest);
    assert Listing(rest)[1..] == Listing(rest - {n});
    var lines := EntryLines(m[n], Listing(m[n].Keys));
    UnlinesConcat(SectionLines(n, m[n]), PrintLines(m, Listing(rest - {n})));
    UnlinesConcat([HeaderLine(n)] + lines, [""]);
    UnlinesConcat([HeaderLine(n)], lines);
    UnlinesOne(HeaderLine(n));
    UnlinesOne("");
    assert "" + "\n" == "\n";
  }

  lemma UnlinesOne(line: string)
    ensures Unlines([line]) == line + "\n"
  {}

  // ----- Values -----

  function Digit(d: nat): char
    requires d < 10
  {
    '0' + d as char
  }

  function Digits(n: nat): string {
    if n < 10 then [Digit(n)] else Digits(n / 10) + [Digit(n % 10)]
  }

  /** Assigning an int to a value: its decimal text. */
  function FromInt(n: int): string {
    if n < 0 then "-" + Digits(-n) else Digits(n)
  }

  predicate IsDigit(c: char) {
    '0' <= c <= '9'
  }

  function DigitsFrom(s: string, acc: nat): nat
    decreases |s|
  {
    if s == "" || !IsDigit(s[0]) then acc else DigitsFrom(s[1..], 10 * acc + (s[0] as int - '0' as int))
  }

  predicate IsSpace(c: char) {
    c == ' ' || '\t' <= c <= '\r'
  }

  /** atoi: skip white space, take a sign, then digits up to the first other character. */
  function ToInt(s: string): int {
    if s == "" then 0
    else if IsSpace(s[0]) then ToInt(s[1..])
    else if s[0] == '-' then 0 - DigitsFrom(s[1..], 0)
    else if s[0] == '+' then DigitsFrom(s[1..], 0)
    else DigitsFrom(s, 0)
  }

  lemma {:induction false} DigitsConcat(s: string, t: string, acc: nat)
    requires forall c :: c in s ==> IsDigit(c)
    ensures DigitsFrom(s + t, acc) == DigitsFrom(t, DigitsFrom(s, acc))
    decreases |s|
  {
    if s == "" {
      assert s + t == t;
    } else {
      assert (s + t)[1..] == s[1..] + t;
      assert s[0] in s && IsDigit(s[0]);
      DigitsConcat(s[1..], t, 10 * acc + (s[0] as int - '0' as int));
    }
  }

  lemma {:induction false} DigitsReadBack(n: nat)
    ensures forall c :: c in Digits(n) ==> IsDigit(c)
    ensures Digits(n) != "" && DigitsFrom(Digits(n), 0) == n
  {
    if n >= 10 {
      DigitsReadBack(n / 10);
      DigitsConcat(Digits(n / 10), [Digit(n % 10)], 0);
    }
  }

  const DECIMAL_DIGITS := "0123456789"

  /** The text of a number: its decimal digits, the last one last. */
  lemma DigitsMeaning(n: nat, d: nat)
    requires d < 10
    ensures Digits(d) == [DECIMAL_DIGITS[d]]
    ensures n > 0 ==> Digits(10 * n + d) == Digits(n) + [DECIMAL_DIGITS[d]]
  {
    DigitOf(d);
    if n > 0 {
      assert (10 * n + d) / 10 == n && (10 * n + d) % 10 == d;
    }
  }

  lemma DigitOf(d: nat)
    requires d < 10
    ensures Digit(d) == DECIMAL_DIGITS[d]
  {}

  lemma {:induction false} SkipSpace(p: string, s: string)
    requires forall c :: c in p ==> IsSpace(c)
    ensures ToInt(p + s) == ToInt(s)
    decreases |p|
  {
    if p == "" {
      assert p + s == s;
    } else {
      assert p[0] in p && (p + s)[1..] == p[1..] + s;
      SkipSpace(p[1..], s);
    }
  }

  lemma NumberMeaning(n: nat, t: string)
    requires t == "" || !IsDigit(t[0])
    ensures
      var number := Digits(n) + t;
      ToInt(number) == n && ToInt("+" + number) == n && ToInt("-" + number) == 0 - n
  {
    var d := Digits(n);
    DigitsReadBack(n);
    DigitsConcat(d, t, 0);
    assert (d + t)[0] == d[0] && IsDigit(d[0]);
    assert ("+" + (d + t))[1..] == d + t && ("-" + (d + t))[1..] == d + t;
  }

  /** What a value converts to: behind white space, a sign or none, and the digits up to the first other character. */
  lemma IntMeaning(p: string, n: nat, t: string)
    requires forall c :: c in p ==> IsSpace(c)
    requires t == "" || !IsDigit(t[0])
    ensures
      var number := Digits(n) + t;
      ToInt(p + number) == n && ToInt(p + ("+" + number)) == n && ToInt(p + ("-" + number)) == 0 - n
  {
    var number := Digits(n) + t;
    NumberMeaning(n, t);
    SkipSpace(p, number);
    SkipSpace(p, "+" + number);
    SkipSpace(p, "-" + number);
  }

  /** An int stored as a value reads back as itself. */
  lemma IntReadsBack(n: int)
    ensures ToInt(FromInt(n)) == n
  {
    var digits := Digits(if n < 0 then -n else n);
    NumberMeaning(if n < 0 then -n else n, "");
    assert digits + "" == digits;
  }
}
