/**
  Concrete runs of the model on small inputs. Some show the code as written: a
  one-word dictionary line ends the loading, a three-word line is stored under its
  first two words, and the dictionary reaches only the first record. Others show
  the corrected mapper and loader on the same inputs, and the argument loop of
  `run`.
*/
module Scenarios {
  import opened Wrappers
  import opened JavaText
  import opened ReplaceTable
  import opened WordCountAndReplace

  lemma SplitTwo(a: string, b: string)
    requires a != [] && b != [] && SpaceFree(a) && SpaceFree(b)
    ensures JavaSplit(a + " " + b) == [a, b]
  {
    assert Join([a, b]) == a + " " + b by {
      assert [a, b][1..] == [b];
    }
    JavaSplitJoin([a, b]);
  }

  /**
    A dictionary line holding a single word splits into one part, so `line[1]` is
    out of bounds: the line is reported and the loading stops there; the
    well-formed line after it is never stored.
  */
  lemma SingleWordLineAborts()
    ensures LoadLines(map[], ["x y", "singleword", "p q"])
            == Loaded(map["x" := "y"], [UnparsableLine("singleword")], Some(1))
  {
    SplitTwo("x", "y");
    assert "x" + " " + "y" == "x y";
    assert ' ' !in "singleword";
    var lines := ["x y", "singleword", "p q"];
    assert lines[..2] == ["x y", "singleword"];
    assert lines[..2][..1] == ["x y"];
    assert ["x y"][..0] == [];
    assert JavaSplit("singleword") == ["singleword"];
    assert LoadLines(map[], ["x y"]) == Loaded(map["x" := "y"], [], None);
    assert LoadLines(map[], lines[..2]) == Loaded(map["x" := "y"], [UnparsableLine("singleword")], Some(1));
  }

  /** A line of three words is reported, yet its first word is mapped to its second. */
  lemma ThreeWordLineStored()
    ensures LoadLines(map[], ["a b c"]) == Loaded(map["a" := "b"], [UnparsableLine("a b c")], None)
  {
    assert Join(["a", "b", "c"]) == "a b c" by {
      assert ["a", "b", "c"][1..] == ["b", "c"];
      assert ["b", "c"][1..] == ["c"];
    }
    JavaSplitJoin(["a", "b", "c"]);
    assert ["a b c"][..0] == [];
  }

  /** A key at the end of the line is replaced. */
  lemma ReplaceAtEnd()
    ensures ReplaceAll("foo bar", "bar", "qux") == "foo qux"
  {
    var s := "foo bar";
    assert s[..3] != "bar" && s[1..] == "oo bar";
    assert "oo bar"[..3] != "bar" && "oo bar"[1..] == "o bar";
    assert "o bar"[..3] != "bar" && "o bar"[1..] == " bar";
    assert " bar"[..3] != "bar" && " bar"[1..] == "bar";
    assert "bar"[..3] == "bar" && "bar"[3..] == "";
  }

  /** An occurrence starts with the pattern's first character. */
  lemma OccursAtHead(s: string, pattern: string, i: nat)
    requires pattern != [] && OccursAt(s, pattern, i)
    ensures s[i] == pattern[0]
  {
    assert s[i..i + |pattern|][0] == s[i];
  }

  lemma NoBarBefore(s: string)
    requires s == "foo" + "bar" + " baz"
    ensures forall i :: 0 <= i < |"foo"| ==> !OccursAt(s, "bar", i)
  {
    assert s == "foobar baz";
    forall i | 0 <= i < 3 && OccursAt(s, "bar", i) ensures false {
      OccursAtHead(s, "bar", i);
    }
  }

  lemma NoBarIn(t: string)
    requires t == " baz"
    ensures !Occurs(t, "bar")
  {
    forall i: nat | i <= |t| ensures !OccursAt(t, "bar", i) {
      if i == 0 {
        assert t[0..3][0] == ' ';
      } else if i == 1 {
        assert t[1..4][2] == 'z';
      }
    }
  }

  /** Literal substring replacement, not limited to whole words. */
  lemma ReplaceInsideWord()
    ensures ReplaceAll("foobar baz", "bar", "qux") == "fooqux baz"
  {
    NoBarBefore("foo" + "bar" + " baz");
    ReplaceAllFirst("foo", "bar", " baz", "qux");
    NoBarIn(" baz");
    ReplaceAllAbsent(" baz", "bar", "qux");
    assert "foo" + "bar" + " baz" == "foobar baz";
    assert "foo" + "qux" + " baz" == "fooqux baz";
  }

  lemma TwoWords(a: string, b: string)
    requires a != [] && b != [] && DelimiterFree(a) && DelimiterFree(b)
    ensures Tokens(a + " " + b) == [a, b]
  {
    TokensAtDelimiter(a, ' ', b);
    TokensOfWord(a);
    TokensOfWord(b);
  }

  /** The tokens of the lines the two records become. */
  lemma RecordTokens()
    ensures Tokens("foo qux") == ["foo", "qux"]
    ensures Tokens("bar baz") == ["bar", "baz"]
    ensures Tokens("qux baz") == ["qux", "baz"]
  {
    TwoWords("foo", "qux");
    TwoWords("bar", "baz");
    TwoWords("qux", "baz");
    assert "foo" + " " + "qux" == "foo qux";
    assert "bar" + " " + "baz" == "bar baz";
    assert "qux" + " " + "baz" == "qux baz";
  }

  lemma BarQuxDictionary()
    ensures LoadFiles(map[], [ReplaceFile(["bar qux"], false)]) == LoadOutcome(map["bar" := "qux"], [], false)
  {
    SplitTwo("bar", "qux");
    assert "bar" + " " + "qux" == "bar qux";
    assert [ReplaceFile(["bar qux"], false)][..0] == [] && ["bar qux"][..0] == [];
  }

  lemma OnlyOrder(order: seq<string>, key: string)
    requires IsEnumeration(order, {key})
    ensures order == [key]
  {
    EnumerationLength(order, {key});
  }

  lemma FirstRecordLine(order: seq<string>)
    requires IsEnumeration(order, {"bar"})
    ensures forall i :: 0 <= i < |order| ==> order[i] in map["bar" := "qux"]
    ensures ApplyRules("foo bar", map["bar" := "qux"], order) == "foo qux"
  {
    OnlyOrder(order, "bar");
    assert order[..0] == [];
    ReplaceAtEnd();
  }

  lemma EmitsTwo(emitted: seq<WordCount>, a: string, b: string)
    requires EmitsOnes(emitted, [a, b])
    ensures emitted == [WordCount(a, 1), WordCount(b, 1)]
  {
  }

  /**
    The dictionary { bar -> qux } and the records "foo bar" and "bar baz": the
    first record is emitted with the replacement, but the table is empty by then,
    so the second record is emitted as it stands.
  */
  method DictionaryReachesFirstRecordOnly() returns (first: seq<WordCount>, second: seq<WordCount>)
    ensures first == [WordCount("foo", 1), WordCount("qux", 1)]
    ensures second == [WordCount("bar", 1), WordCount("baz", 1)]
  {
    var mapper := new Mapper();
    BarQuxDictionary();
    var diagnostics, aborted := mapper.Configure("input", true, Some([ReplaceFile(["bar qux"], false)]));
    var statusSet: bool;
    ghost var order: seq<string>;
    first, statusSet, order := mapper.Map("foo bar");
    FirstRecordLine(order);
    RecordTokens();
    EmitsTwo(first, "foo", "qux");
    second, statusSet, order := mapper.Map("bar baz");
    EmitsTwo(second, "bar", "baz");
  }

  lemma PositionalStep(x: string, rest: seq<string>)
    requires x != "-replace"
    ensures ArgItems([x] + rest) == Prepend([Positional(x)], ArgItems(rest))
  {
    assert ([x] + rest)[0] == x && ([x] + rest)[1..] == rest;
  }

  lemma CacheFileStep(f: string, rest: seq<string>)
    ensures ArgItems(["-replace", f] + rest) == Prepend([CacheFile(f)], ArgItems(rest))
  {
    var args := ["-replace", f] + rest;
    assert args[0] == "-replace" && args[1] == f && args[2..] == rest;
  }

  /** The option may come before the paths. */
  lemma ReplaceBeforePaths()
    ensures Setup(["-replace", "dict", "in", "out"]) == Ok(JobSetup(["dict"], true, "in", "out"))
  {
    assert "in"[0] != "-replace"[0] && "out"[0] != "-replace"[0];
    PositionalStep("out", []);
    assert ["out"] + [] == ["out"];
    assert ArgItems([]) == Some([]) && [Positional("out")] + [] == [Positional("out")];
    assert ArgItems(["out"]) == Some([Positional("out")]);
    PositionalStep("in", ["out"]);
    assert ["in"] + ["out"] == ["in", "out"];
    assert [Positional("in")] + [Positional("out")] == [Positional("in"), Positional("out")];
    assert ArgItems(["in", "out"]) == Some([Positional("in"), Positional("out")]);
    CacheFileStep("dict", ["in", "out"]);
    assert ["-replace", "dict"] + ["in", "out"] == ["-replace", "dict", "in", "out"];
    var items := [CacheFile("dict"), Positional("in"), Positional("out")];
    assert [CacheFile("dict")] + [Positional("in"), Positional("out")] == items;
    assert ArgItems(["-replace", "dict", "in", "out"]) == Some(items);
    assert items[1..] == [Positional("in"), Positional("out")] && items[1..][1..] == [Positional("out")];
    assert CacheFiles(items) == ["dict"] && Positionals(items) == ["in", "out"];
  }

  /** Arguments after the two paths are ignored. */
  lemma ExtraArgumentIgnored()
    ensures Setup(["in", "out", "extra"]) == Ok(JobSetup([], false, "in", "out"))
  {
    assert "in"[0] != "-replace"[0] && "out"[0] != "-replace"[0] && "extra"[0] != "-replace"[0];
    PositionalStep("extra", []);
    assert ["extra"] + [] == ["extra"];
    PositionalStep("out", ["extra"]);
    assert ["out"] + ["extra"] == ["out", "extra"];
    PositionalStep("in", ["out", "extra"]);
    assert ["in"] + ["out", "extra"] == ["in", "out", "extra"];
  }

  /** A trailing "-replace" has no file to read. */
  lemma TrailingReplace()
    ensures Setup(["in", "out", "-replace"]) == Err(MissingReplaceFile)
  {
    assert "in"[0] != "-replace"[0] && "out"[0] != "-replace"[0];
    assert ArgItems(["-replace"]) == None;
    PositionalStep("out", ["-replace"]);
    assert ["out"] + ["-replace"] == ["out", "-replace"];
    PositionalStep("in", ["out", "-replace"]);
    assert ["in"] + ["out", "-replace"] == ["in", "out", "-replace"];
  }

  /** The file after "-replace" is not a path, so one path is missing. */
  lemma ReplaceFileIsNoPath()
    ensures Setup(["in", "-replace", "dict"]) == Err(MissingPath(1))
  {
    assert "in"[0] != "-replace"[0];
    CacheFileStep("dict", []);
    assert ["-replace", "dict"] + [] == ["-replace", "dict"];
    PositionalStep("in", ["-replace", "dict"]);
    assert ["in"] + ["-replace", "dict"] == ["in", "-replace", "dict"];
  }

  lemma TwoDictionaryLines()
    ensures SkipLoad(map[], ["x y", "p q"]) == map["x" := "y", "p" := "q"]
  {
    SplitTwo("x", "y");
    SplitTwo("p", "q");
    assert "x" + " " + "y" == "x y" && "p" + " " + "q" == "p q";
    assert ["x y", "p q"][..1] == ["x y"] && ["x y"][..0] == [];
    assert SkipLoad(map[], ["x y"]) == map["x" := "y"];
  }

  /** Skipping the short line instead, the well-formed lines on both sides of it load. */
  lemma SingleWordLineSkipped()
    ensures SkipLoad(map[], ["x y", "singleword", "p q"]) == map["x" := "y", "p" := "q"]
  {
    assert ' ' !in "singleword";
    assert |JavaSplit("singleword")| < 2;
    SkipLoadSkips(map[], ["x y"], "singleword", ["p q"]);
    assert ["x y"] + ["singleword"] + ["p q"] == ["x y", "singleword", "p q"];
    assert ["x y"] + ["p q"] == ["x y", "p q"];
    TwoDictionaryLines();
  }

  lemma ReplaceAtStart()
    ensures ReplaceAll("bar baz", "bar", "qux") == "qux baz"
  {
    var s := "bar baz";
    assert s[..3] == "bar" && s[3..] == " baz";
    var t := " baz";
    assert t[..3][0] != "bar"[0] && t[1..] == "baz";
    assert "baz"[..3][2] != "bar"[2] && "baz"[1..] == "az";
    assert ReplaceAll("az", "bar", "qux") == "az";
    assert ReplaceAll("baz", "bar", "qux") == "baz";
    assert ReplaceAll(t, "bar", "qux") == " baz";
  }

  lemma SecondRecordLine(order: seq<string>)
    requires IsEnumeration(order, {"bar"})
    ensures forall i :: 0 <= i < |order| ==> order[i] in map["bar" := "qux"]
    ensures ApplyRules("bar baz", map["bar" := "qux"], order) == "qux baz"
  {
    OnlyOrder(order, "bar");
    assert order[..0] == [];
    ReplaceAtStart();
  }

  /**
    The same dictionary and records when the dictionary is left in place: both
    records are rewritten, so qux is counted twice.
  */
  method DictionaryReachesEveryRecord() returns (first: seq<WordCount>, second: seq<WordCount>)
    ensures first == [WordCount("foo", 1), WordCount("qux", 1)]
    ensures second == [WordCount("qux", 1), WordCount("baz", 1)]
  {
    var mapper := new Mapper();
    BarQuxDictionary();
    var diagnostics, aborted := mapper.Configure("input", true, Some([ReplaceFile(["bar qux"], false)]));
    var statusSet: bool;
    ghost var order: seq<string>;
    first, statusSet, order := mapper.MapKeepingDictionary("foo bar");
    RecordTokens();
    FirstRecordLine(order);
    EmitsTwo(first, "foo", "qux");
    second, statusSet, order := mapper.MapKeepingDictionary("bar baz");
    SecondRecordLine(order);
    EmitsTwo(second, "qux", "baz");
  }
}
