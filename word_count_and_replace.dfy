/**
  The per-record logic of the word count with a replacement dictionary: the mapper
  object (its dictionary, its record counter, its configuration step and its
  per-record transform), the reducer that also serves as combiner, and the loop of
  `run` that sorts the command-line arguments.
*/
module WordCountAndReplace {
  import opened Wrappers
  import opened JavaText
  import opened ReplaceTable

  /** Java's 32-bit `int`, the value carried by an `IntWritable`. */
  newtype int32 = x: int | -0x8000_0000 <= x < 0x8000_0000

  /** A pair handed to the output collector. */
  datatype WordCount = WordCount(word: string, count: int32)

  // ---------------------------------------------------------------------------
  // Applying the dictionary
  // ---------------------------------------------------------------------------

  /** `order` lists every key of `keys` exactly once. */
  predicate IsEnumeration(order: seq<string>, keys: set<string>)
  {
    && (forall i :: 0 <= i < |order| ==> order[i] in keys)
    && (forall k :: k in keys ==> k in order)
    && (forall i, j :: 0 <= i < j < |order| ==> order[i] != order[j])
  }

  /** The line after `replaceAll` with each key of `order`, in that order. */
  function ApplyRules(line: string, table: Table, order: seq<string>): string
    requires forall i :: 0 <= i < |order| ==> order[i] in table
    decreases |order|
  {
    if order == [] then line
    else
      var k := order[|order| - 1];
      ReplaceAll(ApplyRules(line, table, order[..|order| - 1]), k, table[k])
  }

  /** An enumeration is as long as the set it enumerates. */
  lemma {:induction false} EnumerationLength(order: seq<string>, keys: set<string>)
    requires IsEnumeration(order, keys)
    ensures |order| == |keys|
    decreases |order|
  {
    if order != [] {
      var last := order[|order| - 1];
      var front := order[..|order| - 1];
      assert forall i :: 0 <= i < |front| ==> front[i] == order[i];
      forall k | k in keys - {last} ensures k in front {
        var i :| 0 <= i < |order| && order[i] == k;
        assert i < |order| - 1;
      }
      EnumerationLength(front, keys - {last});
    }
  }

  /**
    A line in which no key of the table occurs (all keys non-empty) comes out of the
    dictionary unchanged, whatever the iteration order.
  */
  lemma {:induction false} ApplyRulesUntouched(line: string, table: Table, order: seq<string>)
    requires forall i :: 0 <= i < |order| ==> order[i] in table
    requires forall k :: k in table ==> k != [] && !Occurs(line, k)
    ensures ApplyRules(line, table, order) == line
    decreases |order|
  {
    if order != [] {
      var k := order[|order| - 1];
      ApplyRulesUntouched(line, table, order[..|order| - 1]);
      ReplaceAllAbsent(line, k, table[k]);
    }
  }

  /** The pairs `map` emits for the tokens `words`: each word with count one. */
  predicate EmitsOnes(emitted: seq<WordCount>, words: seq<string>)
  {
    && |emitted| == |words|
    && forall i :: 0 <= i < |words| ==> emitted[i] == WordCount(words[i], 1)
  }

  // ---------------------------------------------------------------------------
  // The mapper
  // ---------------------------------------------------------------------------

  /**
    One mapper object. Its dictionary is filled by `Configure` and drained by the
    first call of `Map`; `numRecords` counts the calls of `Map`.
  */
  class Mapper {
    var patternsToReplace: Table
    var numRecords: nat
    var inputFile: string

    constructor ()
      ensures patternsToReplace == map[] && numRecords == 0 && inputFile == ""
    {
      patternsToReplace := map[];
      numRecords := 0;
      inputFile := "";
    }

    /**
      Reads one cached dictionary file into the table, line by line. `aborted` is
      the unchecked exception thrown by a line that splits into fewer than two
      parts; the entries stored before it stay in the table.
    */
    method ParseReplaceFile(file: ReplaceFile) returns (diagnostics: seq<Diagnostic>, aborted: bool)
      modifies this
      ensures numRecords == old(numRecords) && inputFile == old(inputFile)
      ensures patternsToReplace == LoadFile(old(patternsToReplace), file).table
      ensures diagnostics == LoadFile(old(patternsToReplace), file).diagnostics
      ensures aborted == LoadFile(old(patternsToReplace), file).aborted
    {
      ghost var table0 := patternsToReplace;
      diagnostics := [];
      var i := 0;
      while i < |file.lines|
        invariant 0 <= i <= |file.lines|
        invariant numRecords == old(numRecords) && inputFile == old(inputFile)
        invariant LoadLines(table0, file.lines[..i]) == Loaded(patternsToReplace, diagnostics, None)
      {
        var pattern := file.lines[i];
        assert file.lines[..i + 1][..i] == file.lines[..i];
        var line := JavaSplit(pattern);
        if |line| != 2 {
          diagnostics := diagnostics + [UnparsableLine(pattern)];
        }
        if |line| < 2 {
          LoadLinesStops(table0, file.lines, i + 1);
          aborted := true;
          return;
        }
        patternsToReplace := patternsToReplace[line[0] := line[1]];
        i := i + 1;
      }
      assert file.lines[..i] == file.lines;
      if file.readFailed {
        diagnostics := diagnostics + [ReadFailed];
      }
      aborted := false;
    }

    /**
      `parseReplaceFile` with a short line reported and skipped rather than read out
      of bounds: every well-formed line of the file is loaded.
    */
    method ParseReplaceFileSkipping(file: ReplaceFile) returns (diagnostics: seq<Diagnostic>)
      modifies this
      ensures numRecords == old(numRecords) && inputFile == old(inputFile)
      ensures patternsToReplace == SkipLoad(old(patternsToReplace), file.lines)
      ensures diagnostics == Malformed(file.lines) + (if file.readFailed then [ReadFailed] else [])
    {
      ghost var table0 := patternsToReplace;
      diagnostics := [];
      var i := 0;
      while i < |file.lines|
        invariant 0 <= i <= |file.lines|
        invariant numRecords == old(numRecords) && inputFile == old(inputFile)
        invariant patternsToReplace == SkipLoad(table0, file.lines[..i])
        invariant diagnostics == Malformed(file.lines[..i])
      {
        var pattern := file.lines[i];
        SkipLoadStep(table0, file.lines, i);
        var line := JavaSplit(pattern);
        if |line| != 2 {
          diagnostics := diagnostics + [UnparsableLine(pattern)];
        }
        if |line| >= 2 {
          patternsToReplace := patternsToReplace[line[0] := line[1]];
        }
        i := i + 1;
      }
      assert file.lines[..i] == file.lines;
      if file.readFailed {
        diagnostics := diagnostics + [ReadFailed];
      }
    }

    /** The loop of `configure` over the cached files; an aborting file ends it. */
    method ParseReplaceFiles(patternsFiles: seq<ReplaceFile>) returns (diagnostics: seq<Diagnostic>, aborted: bool)
      modifies this
      ensures numRecords == old(numRecords) && inputFile == old(inputFile)
      ensures patternsToReplace == LoadFiles(old(patternsToReplace), patternsFiles).table
      ensures diagnostics == LoadFiles(old(patternsToReplace), patternsFiles).diagnostics
      ensures aborted == LoadFiles(old(patternsToReplace), patternsFiles).aborted
    {
      ghost var table0 := patternsToReplace;
      diagnostics := [];
      var i := 0;
      while i < |patternsFiles|
        invariant 0 <= i <= |patternsFiles|
        invariant numRecords == old(numRecords) && inputFile == old(inputFile)
        invariant LoadFiles(table0, patternsFiles[..i]) == LoadOutcome(patternsToReplace, diagnostics, false)
      {
        LoadFilesStep(table0, patternsFiles, i);
        var d, failed := ParseReplaceFile(patternsFiles[i]);
        diagnostics := diagnostics + d;
        if failed {
          LoadFilesStops(table0, patternsFiles, i + 1);
          aborted := true;
          return;
        }
        i := i + 1;
      }
      assert patternsFiles[..i] == patternsFiles;
      aborted := false;
    }

    /**
      `configure`: records the input file name and, when the job asked for
      replacement, reads every cached file into the table. `cachedFiles` is `None`
      when looking the files up threw an IOException (reported, then no file).
    */
    method Configure(mapInputFile: string, replacePatterns: bool, cachedFiles: Option<seq<ReplaceFile>>)
      returns (diagnostics: seq<Diagnostic>, aborted: bool)
      modifies this
      ensures inputFile == mapInputFile && numRecords == old(numRecords)
      ensures !replacePatterns ==>
                patternsToReplace == old(patternsToReplace) && diagnostics == [] && !aborted
      ensures replacePatterns && cachedFiles.None? ==>
                patternsToReplace == old(patternsToReplace) && diagnostics == [CacheLookupFailed] && !aborted
      ensures replacePatterns && cachedFiles.Some? ==>
                && patternsToReplace == LoadFiles(old(patternsToReplace), cachedFiles.value).table
                && diagnostics == LoadFiles(old(patternsToReplace), cachedFiles.value).diagnostics
                && aborted == LoadFiles(old(patternsToReplace), cachedFiles.value).aborted
    {
      inputFile := mapInputFile;
      diagnostics, aborted := [], false;
      if replacePatterns {
        var patternsFiles: seq<ReplaceFile> := [];
        match cachedFiles {
          case None => diagnostics := [CacheLookupFailed];
          case Some(files) => patternsFiles := files;
        }
        var d;
        d, aborted := ParseReplaceFiles(patternsFiles);
        diagnostics := diagnostics + d;
      }
    }

    /**
      The first loop of `map`: every dictionary entry is applied to the line with
      `replaceAll` and removed through the iterator, in the table's iteration order,
      which is returned as the ghost `order`.
    */
    method ReplacePatterns(value: string) returns (line: string, ghost order: seq<string>)
      modifies this
      ensures patternsToReplace == map[]
      ensures numRecords == old(numRecords) && inputFile == old(inputFile)
      ensures IsEnumeration(order, old(patternsToReplace).Keys)
      ensures forall i :: 0 <= i < |order| ==> order[i] in old(patternsToReplace)
      ensures line == ApplyRules(value, old(patternsToReplace), order)
    {
      line := value;
      ghost var table := patternsToReplace;
      ghost var done: set<string> := {};
      order := [];
      while patternsToReplace != map[]
        invariant done <= table.Keys
        invariant patternsToReplace == table - done
        invariant forall i :: 0 <= i < |order| ==> order[i] in done
        invariant forall k :: k in done ==> k in order
        invariant forall i, j :: 0 <= i < j < |order| ==> order[i] != order[j]
        invariant line == ApplyRules(value, table, order)
        invariant numRecords == old(numRecords) && inputFile == old(inputFile)
        decreases patternsToReplace.Keys
      {
        var wordToReplace :| wordToReplace in patternsToReplace;
        var replacementWord := patternsToReplace[wordToReplace];
        line := ReplaceAll(line, wordToReplace, replacementWord);
        patternsToReplace := patternsToReplace - {wordToReplace};
        done := done + {wordToReplace};
        ghost var before := order;
        order := order + [wordToReplace];
        assert order[..|order| - 1] == before;
      }
      assert table.Keys <= done by {
        forall k | k in table ensures k in done {
          assert k !in patternsToReplace;
        }
      }
    }

    /**
      `map` for one record: the dictionary is applied and drained, the result is
      tokenized and each token emitted with count one; the record counter goes up by
      one, and the status is set when it reaches a multiple of 100.
    */
    method Map(value: string) returns (emitted: seq<WordCount>, statusSet: bool, ghost order: seq<string>)
      modifies this
      ensures patternsToReplace == map[]
      ensures numRecords == old(numRecords) + 1 && inputFile == old(inputFile)
      ensures statusSet <==> numRecords % 100 == 0
      ensures IsEnumeration(order, old(patternsToReplace).Keys)
      ensures forall i :: 0 <= i < |order| ==> order[i] in old(patternsToReplace)
      ensures EmitsOnes(emitted, Tokens(ApplyRules(value, old(patternsToReplace), order)))
      ensures old(patternsToReplace) == map[] ==> EmitsOnes(emitted, Tokens(value))
    {
      var line;
      line, order := ReplacePatterns(value);
      if old(patternsToReplace) == map[] {
        EnumerationLength(order, old(patternsToReplace).Keys);
      }
      emitted := CollectTokens(line);
      numRecords := numRecords + 1;
      statusSet := numRecords % 100 == 0;
    }
    /**
      The first loop of `map` without `it.remove()`: every entry is applied to the
      line in an iteration order of the table, and the table is left as it is.
    */
    method ApplyPatterns(value: string) returns (line: string, ghost order: seq<string>)
      ensures IsEnumeration(order, patternsToReplace.Keys)
      ensures forall i :: 0 <= i < |order| ==> order[i] in patternsToReplace
      ensures line == ApplyRules(value, patternsToReplace, order)
      ensures (forall k :: k in patternsToReplace ==> k != [] && !Occurs(value, k)) ==> line == value
    {
      line := value;
      var remaining := patternsToReplace.Keys;
      order := [];
      while remaining != {}
        invariant remaining <= patternsToReplace.Keys
        invariant forall i :: 0 <= i < |order| ==> order[i] in patternsToReplace && order[i] !in remaining
        invariant forall k :: k in patternsToReplace && k !in remaining ==> k in order
        invariant forall i, j :: 0 <= i < j < |order| ==> order[i] != order[j]
        invariant line == ApplyRules(value, patternsToReplace, order)
        decreases remaining
      {
        var wordToReplace :| wordToReplace in remaining;
        line := ReplaceAll(line, wordToReplace, patternsToReplace[wordToReplace]);
        remaining := remaining - {wordToReplace};
        ghost var before := order;
        order := order + [wordToReplace];
        assert order[..|order| - 1] == before;
      }
      if forall k :: k in patternsToReplace ==> k != [] && !Occurs(value, k) {
        ApplyRulesUntouched(value, patternsToReplace, order);
      }
    }

    /**
      `map` as evidently intended: the dictionary applies to every record, not just
      to the first, because it is left in place.
    */
    method MapKeepingDictionary(value: string) returns (emitted: seq<WordCount>, statusSet: bool, ghost order: seq<string>)
      modifies this
      ensures patternsToReplace == old(patternsToReplace)
      ensures numRecords == old(numRecords) + 1 && inputFile == old(inputFile)
      ensures statusSet <==> numRecords % 100 == 0
      ensures IsEnumeration(order, patternsToReplace.Keys)
      ensures forall i :: 0 <= i < |order| ==> order[i] in patternsToReplace
      ensures EmitsOnes(emitted, Tokens(ApplyRules(value, patternsToReplace, order)))
    {
      var line;
      line, order := ApplyPatterns(value);
      emitted := CollectTokens(line);
      numRecords := numRecords + 1;
      statusSet := numRecords % 100 == 0;
    }
  }

  /**
    The second loop of `map`: a `StringTokenizer` over the line is drained and every
    token handed to the collector with count one.
  */
  method CollectTokens(line: string) returns (emitted: seq<WordCount>)
    ensures EmitsOnes(emitted, Tokens(line))
  {
    var tokenizer := new StringTokenizer(line);
    ghost var words := Tokens(line);
    emitted := [];
    var more := tokenizer.HasMoreTokens();
    while more
      invariant tokenizer.Valid() && tokenizer.str == line
      invariant |emitted| + |tokenizer.Remaining()| == |words|
      invariant tokenizer.Remaining() == words[|emitted|..]
      invariant forall i :: 0 <= i < |emitted| ==> emitted[i] == WordCount(words[i], 1)
      invariant more <==> tokenizer.Remaining() != []
      decreases |tokenizer.Remaining()|
    {
      var word := tokenizer.NextToken();
      emitted := emitted + [WordCount(word, 1)];
      more := tokenizer.HasMoreTokens();
    }
  }

  // ---------------------------------------------------------------------------
  // The reducer, also used as combiner
  // ---------------------------------------------------------------------------

  /** Java's `int` addition: the exact sum, wrapped into 32 bits. */
  function Wrap32(x: int): (r: int32)
    ensures -0x8000_0000 <= x < 0x8000_0000 ==> r as int == x
    ensures (r as int - x) % 0x1_0000_0000 == 0
  {
    ((x + 0x8000_0000) % 0x1_0000_0000 - 0x8000_0000) as int32
  }

  /** The exact (unbounded) sum of the values. */
  function Sum(values: seq<int32>): int
  {
    if values == [] then 0 else Sum(values[..|values| - 1]) + values[|values| - 1] as int
  }

  /** Wrapping after every addition is wrapping once at the end. */
  lemma Wrap32Add(a: int, b: int)
    ensures Wrap32(Wrap32(a) as int + b) == Wrap32(a + b)
  {
    var m := 0x1_0000_0000;
    var q := (a + 0x8000_0000) / m;
    assert Wrap32(a) as int == a - q * m;
    assert (a - q * m + b + 0x8000_0000) % m == (a + b + 0x8000_0000) % m;
  }

  /**
    `reduce`: one pair, keyed by the input key, whose value is the sum of the
    grouped values as Java's `int` arithmetic computes it.
  */
  method Reduce(key: string, values: seq<int32>) returns (output: WordCount)
    ensures output.word == key
    ensures output.count == Wrap32(Sum(values))
  {
    var sum: int32 := 0;
    var i := 0;
    while i < |values|
      invariant 0 <= i <= |values|
      invariant sum == Wrap32(Sum(values[..i]))
    {
      assert values[..i + 1][..i] == values[..i];
      Wrap32Add(Sum(values[..i]), values[i] as int);
      sum := Wrap32(sum as int + values[i] as int);
      i := i + 1;
    }
    assert values[..i] == values;
    output := WordCount(key, sum);
  }

  lemma {:induction false} SumAppend(a: seq<int32>, b: seq<int32>)
    ensures Sum(a + b) == Sum(a) + Sum(b)
    decreases |b|
  {
    if b == [] {
      assert a + b == a;
    } else {
      assert (a + b)[..|a + b| - 1] == a + b[..|b| - 1];
      SumAppend(a, b[..|b| - 1]);
    }
  }

  /** Taking out the value at `j` removes one copy of it... */
  lemma RemoveAt(b: seq<int32>, j: nat)
    requires j < |b|
    ensures multiset(b[..j] + b[j + 1..]) == multiset(b) - multiset{b[j]}
  {
    var left, right := b[..j], b[j + 1..];
    assert b == left + [b[j]] + right;
    calc {
      multiset(b);
      multiset(left + [b[j]] + right);
      multiset(left) + multiset{b[j]} + multiset(right);
    }
  }

  /** ...and its value from the sum. */
  lemma SumRemoveAt(b: seq<int32>, j: nat)
    requires j < |b|
    ensures Sum(b) == Sum(b[..j] + b[j + 1..]) + b[j] as int
  {
    var left, right := b[..j], b[j + 1..];
    assert b == left + [b[j]] + right;
    SumAppend(left + [b[j]], right);
    SumAppend(left, right);
    SumAppend(left, [b[j]]);
    assert [b[j]][..0] == [];
  }

  /** The sum does not depend on the order in which the values arrive. */
  lemma {:induction false} SumPermutation(a: seq<int32>, b: seq<int32>)
    requires multiset(a) == multiset(b)
    ensures Sum(a) == Sum(b)
    decreases |a|
  {
    if a != [] {
      var x := a[|a| - 1];
      var a' := a[..|a| - 1];
      assert a == a' + [x];
      assert multiset(a') == multiset(a) - multiset{x};
      assert x in multiset(b);
      var j :| 0 <= j < |b| && b[j] == x;
      RemoveAt(b, j);
      SumRemoveAt(b, j);
      SumPermutation(a', b[..j] + b[j + 1..]);
    } else {
      assert |multiset(b)| == 0;
    }
  }

  /** Every group flattened into one sequence, in order. */
  function Flatten(groups: seq<seq<int32>>): seq<int32>
  {
    if groups == [] then [] else Flatten(groups[..|groups| - 1]) + groups[|groups| - 1]
  }

  /** The partial counts a combiner pass produces, one per group. */
  function Combined(groups: seq<seq<int32>>): (partial: seq<int32>)
    ensures |partial| == |groups|
  {
    if groups == [] then [] else Combined(groups[..|groups| - 1]) + [Wrap32(Sum(groups[|groups| - 1]))]
  }

  /**
    Running `Reduce` as combiner on groups of values and then on the partial
    results gives the count of running it once on all the values.
  */
  lemma {:induction false} CombinerSound(groups: seq<seq<int32>>)
    ensures Wrap32(Sum(Combined(groups))) == Wrap32(Sum(Flatten(groups)))
    decreases |groups|
  {
    if groups != [] {
      var front := groups[..|groups| - 1];
      var g := groups[|groups| - 1];
      CombinerSound(front);
      SumAppend(Flatten(front), g);
      var partial := Combined(front);
      var w := Wrap32(Sum(g));
      assert Combined(groups) == partial + [w];
      assert (partial + [w])[..|partial|] == partial;
      assert Flatten(groups) == Flatten(front) + g;
      CombinerStep(Sum(partial), Sum(Flatten(front)), Sum(g));
    }
  }

  /** Adding a wrapped partial count to counts that agree once wrapped. */
  lemma CombinerStep(p: int, f: int, s: int)
    requires Wrap32(p) == Wrap32(f)
    ensures Wrap32(p + Wrap32(s) as int) == Wrap32(f + s)
  {
    Wrap32Add(s, p);
    Wrap32Add(p, s);
    Wrap32Add(f, s);
    assert Wrap32(s) as int + p == p + Wrap32(s) as int;
  }

  function Ones(n: nat): (r: seq<int32>)
    ensures |r| == n && forall i :: 0 <= i < n ==> r[i] == 1
  {
    if n == 0 then [] else Ones(n - 1) + [1]
  }

  /** `n` occurrences of a word count as `n`, up to Java's `int` range. */
  lemma {:induction false} SumOnes(n: nat)
    ensures Sum(Ones(n)) == n
    ensures n < 0x8000_0000 ==> Wrap32(Sum(Ones(n))) as int == n
  {
    if n > 0 {
      SumOnes(n - 1);
      assert Ones(n)[..n - 1] == Ones(n - 1);
    }
  }

  // ---------------------------------------------------------------------------
  // The argument loop of run
  // ---------------------------------------------------------------------------

  /** What one step of the loop takes from the arguments. */
  datatype ArgItem =
    | CacheFile(path: string)   // "-replace" and the argument after it
    | Positional(arg: string)   // anything else, kept in other_args

  /**
    The arguments read as the loop reads them; `None` when a "-replace" is the last
    argument, where `args[++i]` reads past the end.
  */
  function ArgItems(args: seq<string>): Option<seq<ArgItem>>
    decreases |args|
  {
    if args == [] then Some([])
    else if args[0] == "-replace" then
      if |args| == 1 then None
      else match ArgItems(args[2..])
        case None => None
        case Some(rest) => Some([CacheFile(args[1])] + rest)
    else
      match ArgItems(args[1..])
      case None => None
      case Some(rest) => Some([Positional(args[0])] + rest)
  }

  /** The arguments that give back `items`. */
  function Render(items: seq<ArgItem>): seq<string>
  {
    if items == [] then []
    else
      (match items[0]
       case CacheFile(path) => ["-replace", path]
       case Positional(arg) => [arg])
      + Render(items[1..])
  }

  function CacheFiles(items: seq<ArgItem>): seq<string>
  {
    if items == [] then []
    else (if items[0].CacheFile? then [items[0].path] else []) + CacheFiles(items[1..])
  }

  function Positionals(items: seq<ArgItem>): seq<string>
  {
    if items == [] then []
    else (if items[0].Positional? then [items[0].arg] else []) + Positionals(items[1..])
  }

  /** Reading arguments gives items that print back as exactly those arguments. */
  lemma {:induction false} RenderArgItems(args: seq<string>)
    requires ArgItems(args).Some?
    ensures Render(ArgItems(args).value) == args
    decreases |args|
  {
    if args != [] {
      if args[0] == "-replace" {
        RenderArgItems(args[2..]);
        assert args == ["-replace", args[1]] + args[2..];
      } else {
        RenderArgItems(args[1..]);
        assert args == [args[0]] + args[1..];
      }
    }
  }

  /** Items with no positional "-replace" are read back from their arguments. */
  lemma {:induction false} ArgItemsRender(items: seq<ArgItem>)
    requires forall i :: 0 <= i < |items| ==> items[i] != Positional("-replace")
    ensures ArgItems(Render(items)) == Some(items)
    decreases |items|
  {
    if items != [] {
      var rest := Render(items[1..]);
      ArgItemsRender(items[1..]);
      assert items == [items[0]] + items[1..];
      match items[0]
      case CacheFile(path) =>
        assert Render(items)[2..] == rest;
      case Positional(arg) =>
        assert Render(items)[1..] == rest;
    }
  }

  /** A "-replace" with nothing after it, at the end of otherwise readable arguments, fails. */
  lemma {:induction false} DanglingReplace(args: seq<string>)
    requires ArgItems(args).Some?
    ensures ArgItems(args + ["-replace"]).None?
    decreases |args|
  {
    if args == [] {
    } else if args[0] == "-replace" {
      assert (args + ["-replace"])[2..] == args[2..] + ["-replace"];
      DanglingReplace(args[2..]);
    } else {
      assert (args + ["-replace"])[1..] == args[1..] + ["-replace"];
      DanglingReplace(args[1..]);
    }
  }

  /**
    The replace flag ends up set exactly when "-replace" is among the arguments:
    its first occurrence is always read as the option.
  */
  lemma {:induction false} ReplaceFlagIff(args: seq<string>)
    requires ArgItems(args).Some?
    ensures CacheFiles(ArgItems(args).value) != [] <==> "-replace" in args
    decreases |args|
  {
    if args != [] {
      if args[0] != "-replace" {
        ReplaceFlagIff(args[1..]);
        assert args == [args[0]] + args[1..];
      }
    }
  }

  lemma {:induction false} CacheFilesAppend(a: seq<ArgItem>, b: seq<ArgItem>)
    ensures CacheFiles(a + b) == CacheFiles(a) + CacheFiles(b)
    ensures Positionals(a + b) == Positionals(a) + Positionals(b)
    decreases |a|
  {
    if a == [] {
      assert a + b == b;
    } else {
      var x := a[0];
      assert (a + b)[0] == x;
      assert (a + b)[1..] == a[1..] + b;
      CacheFilesAppend(a[1..], b);
      var c := if x.CacheFile? then [x.path] else [];
      var p := if x.Positional? then [x.arg] else [];
      assert CacheFiles(a + b) == c + CacheFiles(a[1..] + b);
      assert CacheFiles(a) == c + CacheFiles(a[1..]);
      assert Positionals(a + b) == p + Positionals(a[1..] + b);
      assert Positionals(a) == p + Positionals(a[1..]);
    }
  }

  /** `done` put in front of a reading of the remaining arguments. */
  function Prepend(done: seq<ArgItem>, rest: Option<seq<ArgItem>>): Option<seq<ArgItem>>
  {
    match rest
    case None => None
    case Some(items) => Some(done + items)
  }

  lemma ArgItemsStep(args: seq<string>, i: nat, done: seq<ArgItem>)
    requires i < |args|
    ensures args[i] == "-replace" && i + 1 == |args| ==> ArgItems(args[i..]).None?
    ensures args[i] == "-replace" && i + 1 < |args| ==>
              Prepend(done, ArgItems(args[i..])) == Prepend(done + [CacheFile(args[i + 1])], ArgItems(args[i + 2..]))
    ensures args[i] != "-replace" ==>
              Prepend(done, ArgItems(args[i..])) == Prepend(done + [Positional(args[i])], ArgItems(args[i + 1..]))
  {
    var rest := args[i..];
    if args[i] == "-replace" && i + 1 < |args| {
      assert rest[2..] == args[i + 2..];
      match ArgItems(args[i + 2..])
      case None =>
      case Some(r) => assert done + ([CacheFile(args[i + 1])] + r) == done + [CacheFile(args[i + 1])] + r;
    } else if args[i] != "-replace" {
      assert rest[1..] == args[i + 1..];
      match ArgItems(args[i + 1..])
      case None =>
      case Some(r) => assert done + ([Positional(args[i])] + r) == done + [Positional(args[i])] + r;
    }
  }

  /** The job settings `run` derives from its arguments. */
  datatype JobSetup = JobSetup(cacheFiles: seq<string>, replacePatterns: bool, inputPath: string, outputPath: string)

  /** The unchecked exceptions of the argument handling. */
  datatype ArgError =
    | MissingReplaceFile         // "-replace" was the last argument
    | MissingPath(found: nat)    // fewer than two arguments were left for the paths

  /** What `run` makes of its arguments before it submits the job. */
  function Setup(args: seq<string>): Result<JobSetup, ArgError>
  {
    match ArgItems(args)
    case None => Err(MissingReplaceFile)
    case Some(items) =>
      var others := Positionals(items);
      if |others| < 2 then Err(MissingPath(|others|))
      else Ok(JobSetup(CacheFiles(items), CacheFiles(items) != [], others[0], others[1]))
  }

  /**
    The job is configured to replace exactly when "-replace" occurs among the
    arguments, and the items read print back as exactly those arguments.
  */
  lemma SetupReplaceFlag(args: seq<string>)
    requires Setup(args).Ok?
    ensures Setup(args).value.replacePatterns <==> "-replace" in args
    ensures Render(ArgItems(args).value) == args
  {
    ReplaceFlagIff(args);
    RenderArgItems(args);
  }

  /**
    The loop of `run` over `args` and the two `other_args.get` calls after it: each
    "-replace" takes the next argument as a cached file and sets the flag; every
    other argument is kept, in order; the first two kept are the paths.
  */
  method ParseArguments(args: seq<string>) returns (result: Result<JobSetup, ArgError>)
    ensures result == Setup(args)
  {
    var cacheFiles: seq<string> := [];
    var replacePatterns := false;
    var otherArgs: seq<string> := [];
    ghost var done: seq<ArgItem> := [];
    var i := 0;
    assert args[0..] == args;
    match ArgItems(args) {
      case None =>
      case Some(r) => assert [] + r == r;
    }
    while i < |args|
      invariant 0 <= i <= |args|
      invariant ArgItems(args) == Prepend(done, ArgItems(args[i..]))
      invariant cacheFiles == CacheFiles(done) && otherArgs == Positionals(done)
      invariant replacePatterns <==> cacheFiles != []
    {
      ArgItemsStep(args, i, done);
      if args[i] == "-replace" {
        i := i + 1;
        if i >= |args| {
          return Err(MissingReplaceFile);
        }
        CacheFilesAppend(done, [CacheFile(args[i])]);
        done := done + [CacheFile(args[i])];
        cacheFiles := cacheFiles + [args[i]];
        replacePatterns := true;
      } else {
        CacheFilesAppend(done, [Positional(args[i])]);
        done := done + [Positional(args[i])];
        otherArgs := otherArgs + [args[i]];
      }
      i := i + 1;
    }
    assert args[i..] == [];
    assert done + [] == done;
    if |otherArgs| < 2 {
      return Err(MissingPath(|otherArgs|));
    }
    result := Ok(JobSetup(cacheFiles, replacePatterns, otherArgs[0], otherArgs[1]));
  }
}
