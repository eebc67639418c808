# Word count with a replacement dictionary, modelled in Dafny

This project models the per-record logic of `WordCountAndReplace`, a Hadoop
MapReduce job. It counts the words of its input after rewriting them with a
dictionary that is shipped to every mapper through the distributed cache.

- **Mapper** (`WordCountAndReplace.Mapper`). The class keeps the mapper object's
  own state: the dictionary `patternsToReplace`, the record counter `numRecords`
  and the input file name.
  - `Configure` reads the cached dictionary files. `ParseReplaceFile` reads one of
    them, line by line.
  - `Map` handles one record in four steps. It applies every dictionary entry with
    `replaceAll` and removes the entry through the iterator. It then splits the
    result with a `StringTokenizer`, emits each token with count one, and bumps
    the counter.
- **Reducer** (`WordCountAndReplace.Reduce`) sums the counts of a word in Java
  `int` arithmetic. The same class is the job's combiner.
- **Argument loop** (`WordCountAndReplace.ParseArguments`). This is the loop of
  `run`: every `-replace FILE` adds a cache file and sets the replace flag, and
  the first two other arguments become the input and output paths.
- **Java library behaviour** (`JavaText`), written out where the code depends on
  it:
  - `String.split(" ")` drops trailing empty parts.
  - `replaceAll` is modelled for a literal pattern.
  - `StringTokenizer`'s default delimiters are space, tab, newline, carriage
    return and form feed. The tokenizer is a class with a position that moves.
- **Dictionary loading** (`ReplaceTable`) is stated as functions on the lines of
  the dictionary files. The mapper's loops are proved equal to these functions,
  and the lemmas about the functions carry the properties.
- **Scenarios** (`Scenarios`) are concrete runs on small inputs.

The mapper models the code as written, including the two defects listed under
"## Findings". Each defect also has a corrected member beside the as-written
one.

## Model

| member | source | states |
|---|---|---|
| JavaText.Spaces | hadoop-java-distcache-example/src/main/java/st/ata/vcc/examples/hadoop/mapred/wordcount/WordCountAndReplace.java:88 | a run of `n` spaces: length `n`, every character a space (what `split` drops at the end of a line) |
| JavaText.RawSplit | hadoop-java-distcache-example/src/main/java/st/ata/vcc/examples/hadoop/mapred/wordcount/WordCountAndReplace.java:88 | cutting at every space gives at least one part |
| JavaText.DropTrailingEmptySpec | hadoop-java-distcache-example/src/main/java/st/ata/vcc/examples/hadoop/mapred/wordcount/WordCountAndReplace.java:88 | `split` drops only trailing empty parts: the result is a prefix of the cut, everything after it is empty, and its last part is non-empty |
| JavaText.JoinSnoc | hadoop-java-distcache-example/src/main/java/st/ata/vcc/examples/hadoop/mapred/wordcount/WordCountAndReplace.java:88 | joining with one more part adds one space and that part |
| JavaText.RawSplitJoin | hadoop-java-distcache-example/src/main/java/st/ata/vcc/examples/hadoop/mapred/wordcount/WordCountAndReplace.java:88 | the cut parts contain no space and joined with single spaces give back the line |
| JavaText.DropTrailingEmptyJoin | hadoop-java-distcache-example/src/main/java/st/ata/vcc/examples/hadoop/mapred/wordcount/WordCountAndReplace.java:88 | dropping trailing empty parts loses only trailing spaces of the joined text |
| JavaText.JavaSplitSpec | hadoop-java-distcache-example/src/main/java/st/ata/vcc/examples/hadoop/mapred/wordcount/WordCountAndReplace.java:88 | `pattern.split(" ")`: every part is space-free; a line without a space is its own single part; otherwise the last part is non-empty; the line is the parts joined by single spaces followed only by spaces |
| JavaText.RawSplitWord | hadoop-java-distcache-example/src/main/java/st/ata/vcc/examples/hadoop/mapred/wordcount/WordCountAndReplace.java:88 | a space-free word splits into itself, and a word followed by a space splits into that word and the split of the rest |
| JavaText.RawSplitOfJoin | hadoop-java-distcache-example/src/main/java/st/ata/vcc/examples/hadoop/mapred/wordcount/WordCountAndReplace.java:88 | cutting space-free parts joined with spaces gives back those parts |
| JavaText.JavaSplitJoin | hadoop-java-distcache-example/src/main/java/st/ata/vcc/examples/hadoop/mapred/wordcount/WordCountAndReplace.java:88 | round trip: a non-empty sequence of space-free parts whose last part is non-empty (or that is a single part) is what `split` returns on their join |
| JavaText.ReplaceAllAbsent | hadoop-java-distcache-example/src/main/java/st/ata/vcc/examples/hadoop/mapred/wordcount/WordCountAndReplace.java:110 | `replaceAll` with a non-empty pattern that does not occur leaves the line unchanged |
| JavaText.ReplaceAllKeep | hadoop-java-distcache-example/src/main/java/st/ata/vcc/examples/hadoop/mapred/wordcount/WordCountAndReplace.java:110 | where a non-empty pattern does not start, `replaceAll` keeps the first character and goes on with the rest |
| JavaText.ReplaceAllFirst | hadoop-java-distcache-example/src/main/java/st/ata/vcc/examples/hadoop/mapred/wordcount/WordCountAndReplace.java:110 | the first occurrence of a non-empty pattern is replaced and the text before it kept; the rest of the line is replaced in turn, left to right and without overlap |
| JavaText.InsertNothing | hadoop-java-distcache-example/src/main/java/st/ata/vcc/examples/hadoop/mapred/wordcount/WordCountAndReplace.java:110 | inserting the empty replacement at every position leaves the line unchanged |
| JavaText.ReplaceAllSelf | hadoop-java-distcache-example/src/main/java/st/ata/vcc/examples/hadoop/mapred/wordcount/WordCountAndReplace.java:110 | replacing a pattern by itself leaves the line unchanged, including the empty pattern |
| JavaText.RunLength | hadoop-java-distcache-example/src/main/java/st/ata/vcc/examples/hadoop/mapred/wordcount/WordCountAndReplace.java:114-117 | the length of the token at the start of the text: no delimiter inside it, and a delimiter (or the end) right after it |
| JavaText.TokensWellFormed | hadoop-java-distcache-example/src/main/java/st/ata/vcc/examples/hadoop/mapred/wordcount/WordCountAndReplace.java:114-117 | every token of a line is non-empty and free of the default delimiters (space, tab, newline, carriage return, form feed) |
| JavaText.TokensSkipDelimiters | hadoop-java-distcache-example/src/main/java/st/ata/vcc/examples/hadoop/mapred/wordcount/WordCountAndReplace.java:114-117 | leading delimiters do not change the tokens |
| JavaText.RunLengthUnique | hadoop-java-distcache-example/src/main/java/st/ata/vcc/examples/hadoop/mapred/wordcount/WordCountAndReplace.java:114-117 | the token at the start of the text ends at the one index where its run of non-delimiters stops |
| JavaText.TokenAt | hadoop-java-distcache-example/src/main/java/st/ata/vcc/examples/hadoop/mapred/wordcount/WordCountAndReplace.java:114-117 | a token from `start` to `end` is the first of the tokens from `start`, and the tokens from `end` follow it |
| JavaText.TokensOfWord | hadoop-java-distcache-example/src/main/java/st/ata/vcc/examples/hadoop/mapred/wordcount/WordCountAndReplace.java:114-117 | a non-empty word without delimiters is its own single token |
| JavaText.RunLengthAppend | hadoop-java-distcache-example/src/main/java/st/ata/vcc/examples/hadoop/mapred/wordcount/WordCountAndReplace.java:114-117 | a delimiter ends the token that starts before it |
| JavaText.TokensAtDelimiter | hadoop-java-distcache-example/src/main/java/st/ata/vcc/examples/hadoop/mapred/wordcount/WordCountAndReplace.java:114-117 | tokens of `a`, a delimiter, `b` are the tokens of `a` followed by the tokens of `b` |
| JavaText.StringTokenizer.constructor | hadoop-java-distcache-example/src/main/java/st/ata/vcc/examples/hadoop/mapred/wordcount/WordCountAndReplace.java:114 | a tokenizer over the line has exactly the line's tokens still to hand out |
| JavaText.StringTokenizer.SkipDelimiters | hadoop-java-distcache-example/src/main/java/st/ata/vcc/examples/hadoop/mapred/wordcount/WordCountAndReplace.java:115-116 | from a position, moves over delimiters only and stops at a non-delimiter or the end |
| JavaText.StringTokenizer.ScanToken | hadoop-java-distcache-example/src/main/java/st/ata/vcc/examples/hadoop/mapred/wordcount/WordCountAndReplace.java:116 | from a position, moves over non-delimiters only and stops at a delimiter or the end |
| JavaText.StringTokenizer.HasMoreTokens | hadoop-java-distcache-example/src/main/java/st/ata/vcc/examples/hadoop/mapred/wordcount/WordCountAndReplace.java:115 | true exactly when tokens remain |
| JavaText.StringTokenizer.NextToken | hadoop-java-distcache-example/src/main/java/st/ata/vcc/examples/hadoop/mapred/wordcount/WordCountAndReplace.java:116 | returns the first remaining token and removes exactly that one from the remaining tokens |
| ReplaceTable.LoadLines | hadoop-java-distcache-example/src/main/java/st/ata/vcc/examples/hadoop/mapred/wordcount/WordCountAndReplace.java:87-93 | the loading of the lines read so far; a failure, if any, is at the index of one of those lines |
| ReplaceTable.MalformedAppend | hadoop-java-distcache-example/src/main/java/st/ata/vcc/examples/hadoop/mapred/wordcount/WordCountAndReplace.java:89-91 | the warnings for lines read one after another are the warnings of each in turn |
| ReplaceTable.LoadLinesFailure | hadoop-java-distcache-example/src/main/java/st/ata/vcc/examples/hadoop/mapred/wordcount/WordCountAndReplace.java:88-92 | loading completes exactly when every line splits into at least two parts, and otherwise stops at the first line that splits into fewer |
| ReplaceTable.LoadLinesStored | hadoop-java-distcache-example/src/main/java/st/ata/vcc/examples/hadoop/mapred/wordcount/WordCountAndReplace.java:92 | every stored line split into at least two parts |
| ReplaceTable.LoadLinesKeys | hadoop-java-distcache-example/src/main/java/st/ata/vcc/examples/hadoop/mapred/wordcount/WordCountAndReplace.java:92 | the keys after loading are the old keys together with the first word of every stored line, and nothing else |
| ReplaceTable.LoadLinesLastWins | hadoop-java-distcache-example/src/main/java/st/ata/vcc/examples/hadoop/mapred/wordcount/WordCountAndReplace.java:92 | the last stored line with a given first word decides its replacement: the key maps to that line's second word (a three-word line included) |
| ReplaceTable.LoadLinesUntouched | hadoop-java-distcache-example/src/main/java/st/ata/vcc/examples/hadoop/mapred/wordcount/WordCountAndReplace.java:92 | an old entry whose key no stored line repeats keeps its value |
| ReplaceTable.LoadLinesDiagnostics | hadoop-java-distcache-example/src/main/java/st/ata/vcc/examples/hadoop/mapred/wordcount/WordCountAndReplace.java:89-91 | one warning per line read that does not split into exactly two parts, in file order, up to and including the line that ends the loading |
| ReplaceTable.LoadLinesAppend | hadoop-java-distcache-example/src/main/java/st/ata/vcc/examples/hadoop/mapred/wordcount/WordCountAndReplace.java:87-93 | loading two runs of lines is loading the first and, unless it failed, continuing with the second from its table |
| ReplaceTable.LoadLinesStops | hadoop-java-distcache-example/src/main/java/st/ata/vcc/examples/hadoop/mapred/wordcount/WordCountAndReplace.java:87-93 | after a failure the remaining lines are never read |
| ReplaceTable.SkipLoadSkips | hadoop-java-distcache-example/src/main/java/st/ata/vcc/examples/hadoop/mapred/wordcount/WordCountAndReplace.java:88-92 | skipping loader: a line of fewer than two parts has no effect on the table; the lines before and after it load as if it were absent |
| ReplaceTable.NamesSnoc | hadoop-java-distcache-example/src/main/java/st/ata/vcc/examples/hadoop/mapred/wordcount/WordCountAndReplace.java:92 | a first word is named by some line exactly when the earlier lines or the last line name it |
| ReplaceTable.SkipLoadKeys | hadoop-java-distcache-example/src/main/java/st/ata/vcc/examples/hadoop/mapred/wordcount/WordCountAndReplace.java:92 | skipping loader: the keys are the old keys and the first word of every line of two or more parts, in any file position |
| ReplaceTable.SkipLoadAgrees | hadoop-java-distcache-example/src/main/java/st/ata/vcc/examples/hadoop/mapred/wordcount/WordCountAndReplace.java:87-93 | where the code does not abort, the skipping loader builds the same table as the code |
| ReplaceTable.SkipLoadStep | hadoop-java-distcache-example/src/main/java/st/ata/vcc/examples/hadoop/mapred/wordcount/WordCountAndReplace.java:87-93 | skipping loader, one line: stored when it has two or more parts, skipped otherwise, with a warning unless it has exactly two |
| ReplaceTable.MalformedOne | hadoop-java-distcache-example/src/main/java/st/ata/vcc/examples/hadoop/mapred/wordcount/WordCountAndReplace.java:89-91 | one line gets a warning exactly when it does not split into two parts |
| ReplaceTable.LoadFilesStep | hadoop-java-distcache-example/src/main/java/st/ata/vcc/examples/hadoop/mapred/wordcount/WordCountAndReplace.java:77-79 | the file loop continues file by file from the table the previous files left |
| ReplaceTable.LoadFilesStops | hadoop-java-distcache-example/src/main/java/st/ata/vcc/examples/hadoop/mapred/wordcount/WordCountAndReplace.java:77-79 | a file that aborts ends the loop of `configure`: the files after it are never read |
| ReplaceTable.LoadFilesAsOneFile | hadoop-java-distcache-example/src/main/java/st/ata/vcc/examples/hadoop/mapred/wordcount/WordCountAndReplace.java:77-79 | the table after several files, and whether they abort, equal those of reading all their lines as one file |
| WordCountAndReplace.EnumerationLength | hadoop-java-distcache-example/src/main/java/st/ata/vcc/examples/hadoop/mapred/wordcount/WordCountAndReplace.java:103-112 | an iteration order over the table has one element per key |
| WordCountAndReplace.ApplyRulesUntouched | hadoop-java-distcache-example/src/main/java/st/ata/vcc/examples/hadoop/mapred/wordcount/WordCountAndReplace.java:103-112 | a line in which no (non-empty) key occurs is left unchanged by the dictionary, whatever the iteration order |
| WordCountAndReplace.Mapper.constructor | hadoop-java-distcache-example/src/main/java/st/ata/vcc/examples/hadoop/mapred/wordcount/WordCountAndReplace.java:59-64 | a new mapper has an empty table, a zero counter and no input file name |
| WordCountAndReplace.Mapper.ParseReplaceFile | hadoop-java-distcache-example/src/main/java/st/ata/vcc/examples/hadoop/mapred/wordcount/WordCountAndReplace.java:83-97 | `parseReplaceFile`: the table and the warnings are those of loading the file's lines, a file that cannot be read is reported after the lines read from it, and a short line aborts with the entries before it kept |
| WordCountAndReplace.Mapper.ParseReplaceFileSkipping | hadoop-java-distcache-example/src/main/java/st/ata/vcc/examples/hadoop/mapred/wordcount/WordCountAndReplace.java:83-97 | `parseReplaceFile` with short lines skipped: the table is that of the skipping loader and there is one warning per line not of two parts, then the read failure |
| WordCountAndReplace.Mapper.ParseReplaceFiles | hadoop-java-distcache-example/src/main/java/st/ata/vcc/examples/hadoop/mapred/wordcount/WordCountAndReplace.java:77-79 | the loop over the cached files leaves the table, warnings and abort of loading the files in order |
| WordCountAndReplace.Mapper.Configure | hadoop-java-distcache-example/src/main/java/st/ata/vcc/examples/hadoop/mapred/wordcount/WordCountAndReplace.java:66-81 | records the input file name; without the replace flag the table is untouched; a failed cache lookup is reported and loads nothing; otherwise the cached files are loaded |
| WordCountAndReplace.Mapper.ReplacePatterns | hadoop-java-distcache-example/src/main/java/st/ata/vcc/examples/hadoop/mapred/wordcount/WordCountAndReplace.java:101-112 | the line after `replaceAll` with every entry in an iteration order that lists each old key exactly once, and the table empty afterwards |
| WordCountAndReplace.Mapper.ApplyPatterns | hadoop-java-distcache-example/src/main/java/st/ata/vcc/examples/hadoop/mapred/wordcount/WordCountAndReplace.java:103-110 | every entry applied in an iteration order that lists each key once, the table left unchanged; a line in which no (non-empty) key occurs comes back as it was |
| WordCountAndReplace.Mapper.MapKeepingDictionary | hadoop-java-distcache-example/src/main/java/st/ata/vcc/examples/hadoop/mapred/wordcount/WordCountAndReplace.java:100-123 | `map` without the removal: the table is unchanged, so the next record sees all of it; the counter, status and emitted pairs are as in `Map` |
| WordCountAndReplace.Mapper.Map | hadoop-java-distcache-example/src/main/java/st/ata/vcc/examples/hadoop/mapred/wordcount/WordCountAndReplace.java:100-123 | the table is empty afterwards, the counter goes up by one, the status is set exactly at multiples of 100, and the emitted pairs are the tokens of the replaced line with count one (of the record itself when the table was already empty) |
| WordCountAndReplace.CollectTokens | hadoop-java-distcache-example/src/main/java/st/ata/vcc/examples/hadoop/mapred/wordcount/WordCountAndReplace.java:114-118 | the pairs emitted are the line's tokens, in order, each with count one |
| WordCountAndReplace.Wrap32 | hadoop-java-distcache-example/src/main/java/st/ata/vcc/examples/hadoop/mapred/wordcount/WordCountAndReplace.java:132 | Java `int` addition: the identity in range, and otherwise congruent to the exact value modulo 2^32 |
| WordCountAndReplace.Wrap32Add | hadoop-java-distcache-example/src/main/java/st/ata/vcc/examples/hadoop/mapred/wordcount/WordCountAndReplace.java:130-133 | wrapping after every addition gives the wrapped exact sum |
| WordCountAndReplace.Reduce | hadoop-java-distcache-example/src/main/java/st/ata/vcc/examples/hadoop/mapred/wordcount/WordCountAndReplace.java:129-135 | the output pair keeps the key and carries the 32-bit wrapped sum of the values |
| WordCountAndReplace.SumAppend | hadoop-java-distcache-example/src/main/java/st/ata/vcc/examples/hadoop/mapred/wordcount/WordCountAndReplace.java:130-133 | the sum of two runs of values is the sum of the sums |
| WordCountAndReplace.RemoveAt | hadoop-java-distcache-example/src/main/java/st/ata/vcc/examples/hadoop/mapred/wordcount/WordCountAndReplace.java:131-133 | taking one value out of the values removes one copy of it from their multiset |
| WordCountAndReplace.SumRemoveAt | hadoop-java-distcache-example/src/main/java/st/ata/vcc/examples/hadoop/mapred/wordcount/WordCountAndReplace.java:130-133 | taking one value out of the values lowers their sum by that value |
| WordCountAndReplace.SumPermutation | hadoop-java-distcache-example/src/main/java/st/ata/vcc/examples/hadoop/mapred/wordcount/WordCountAndReplace.java:131-133 | the sum does not depend on the order the values arrive in |
| WordCountAndReplace.Combined | hadoop-java-distcache-example/src/main/java/st/ata/vcc/examples/hadoop/mapred/wordcount/WordCountAndReplace.java:148 | one partial sum per group of values |
| WordCountAndReplace.CombinerSound | hadoop-java-distcache-example/src/main/java/st/ata/vcc/examples/hadoop/mapred/wordcount/WordCountAndReplace.java:148-149 | reducing the combiner's partial sums gives the same count as reducing all the values |
| WordCountAndReplace.CombinerStep | hadoop-java-distcache-example/src/main/java/st/ata/vcc/examples/hadoop/mapred/wordcount/WordCountAndReplace.java:148-149 | adding a combined partial count to counts that agree modulo 2^32 keeps them in agreement |
| WordCountAndReplace.Ones | hadoop-java-distcache-example/src/main/java/st/ata/vcc/examples/hadoop/mapred/wordcount/WordCountAndReplace.java:117 | the values for `n` emitted tokens: `n` ones |
| WordCountAndReplace.SumOnes | hadoop-java-distcache-example/src/main/java/st/ata/vcc/examples/hadoop/mapred/wordcount/WordCountAndReplace.java:129-135 | the count of a word emitted `n` times is `n`, exactly when `n` fits in an `int` |
| WordCountAndReplace.RenderArgItems | hadoop-java-distcache-example/src/main/java/st/ata/vcc/examples/hadoop/mapred/wordcount/WordCountAndReplace.java:153-161 | the items read from the arguments print back as exactly those arguments |
| WordCountAndReplace.ArgItemsRender | hadoop-java-distcache-example/src/main/java/st/ata/vcc/examples/hadoop/mapred/wordcount/WordCountAndReplace.java:153-161 | round trip: items without a positional "-replace" are read back from the arguments they print as |
| WordCountAndReplace.DanglingReplace | hadoop-java-distcache-example/src/main/java/st/ata/vcc/examples/hadoop/mapred/wordcount/WordCountAndReplace.java:155-156 | a "-replace" as the last argument reads past the end |
| WordCountAndReplace.ReplaceFlagIff | hadoop-java-distcache-example/src/main/java/st/ata/vcc/examples/hadoop/mapred/wordcount/WordCountAndReplace.java:155-157 | a cached file is added exactly when "-replace" is among the arguments |
| WordCountAndReplace.CacheFilesAppend | hadoop-java-distcache-example/src/main/java/st/ata/vcc/examples/hadoop/mapred/wordcount/WordCountAndReplace.java:153-161 | the cached files and the other arguments of two runs of items are those of each in turn |
| WordCountAndReplace.ArgItemsStep | hadoop-java-distcache-example/src/main/java/st/ata/vcc/examples/hadoop/mapred/wordcount/WordCountAndReplace.java:154-160 | one step of the loop: a "-replace" takes the next argument as a cached file, anything else is kept |
| WordCountAndReplace.SetupReplaceFlag | hadoop-java-distcache-example/src/main/java/st/ata/vcc/examples/hadoop/mapred/wordcount/WordCountAndReplace.java:153-164 | for arguments that configure a job, the replace flag is set exactly when "-replace" occurs, and the arguments are read in full |
| WordCountAndReplace.ParseArguments | hadoop-java-distcache-example/src/main/java/st/ata/vcc/examples/hadoop/mapred/wordcount/WordCountAndReplace.java:153-164 | the loop of `run` gives the cached files, the flag and the first two other arguments as paths, or the error of a trailing "-replace" or of fewer than two paths |
| Scenarios.SplitTwo | hadoop-java-distcache-example/src/main/java/st/ata/vcc/examples/hadoop/mapred/wordcount/WordCountAndReplace.java:88 | two space-free words joined by one space split into those two words |
| Scenarios.SingleWordLineAborts | hadoop-java-distcache-example/src/main/java/st/ata/vcc/examples/hadoop/mapred/wordcount/WordCountAndReplace.java:88-92 | a one-word dictionary line is reported and ends the loading; the line after it is never stored |
| Scenarios.ThreeWordLineStored | hadoop-java-distcache-example/src/main/java/st/ata/vcc/examples/hadoop/mapred/wordcount/WordCountAndReplace.java:89-92 | a three-word line is reported, yet its first word is mapped to its second |
| Scenarios.ReplaceAtEnd | hadoop-java-distcache-example/src/main/java/st/ata/vcc/examples/hadoop/mapred/wordcount/WordCountAndReplace.java:110 | `foo bar` with bar replaced by qux is `foo qux` |
| Scenarios.ReplaceInsideWord | hadoop-java-distcache-example/src/main/java/st/ata/vcc/examples/hadoop/mapred/wordcount/WordCountAndReplace.java:110 | replacement is by substring, not by whole word: `foobar baz` with bar replaced by qux is `fooqux baz` |
| Scenarios.TwoWords | hadoop-java-distcache-example/src/main/java/st/ata/vcc/examples/hadoop/mapred/wordcount/WordCountAndReplace.java:114-117 | two words separated by a space are two tokens |
| Scenarios.BarQuxDictionary | hadoop-java-distcache-example/src/main/java/st/ata/vcc/examples/hadoop/mapred/wordcount/WordCountAndReplace.java:83-97 | the dictionary file `bar qux` gives the table bar to qux with no warning |
| Scenarios.OnlyOrder | hadoop-java-distcache-example/src/main/java/st/ata/vcc/examples/hadoop/mapred/wordcount/WordCountAndReplace.java:103-112 | a one-entry table is iterated in its only order |
| Scenarios.FirstRecordLine | hadoop-java-distcache-example/src/main/java/st/ata/vcc/examples/hadoop/mapred/wordcount/WordCountAndReplace.java:103-112 | with bar to qux, whichever order the one-entry table is iterated in, the record `foo bar` becomes `foo qux` |
| Scenarios.RecordTokens | hadoop-java-distcache-example/src/main/java/st/ata/vcc/examples/hadoop/mapred/wordcount/WordCountAndReplace.java:114-117 | the lines `foo qux`, `bar baz` and `qux baz` each have their two words as tokens |
| Scenarios.EmitsTwo | hadoop-java-distcache-example/src/main/java/st/ata/vcc/examples/hadoop/mapred/wordcount/WordCountAndReplace.java:117 | two tokens are emitted as two pairs with count one |
| Scenarios.DictionaryReachesFirstRecordOnly | hadoop-java-distcache-example/src/main/java/st/ata/vcc/examples/hadoop/mapred/wordcount/WordCountAndReplace.java:66-123 | with the dictionary bar to qux, the record `foo bar` is emitted as foo, qux, and the next record `bar baz` unchanged, because the first call drained the table |
| Scenarios.PositionalStep | hadoop-java-distcache-example/src/main/java/st/ata/vcc/examples/hadoop/mapred/wordcount/WordCountAndReplace.java:158-159 | an argument other than "-replace" is kept and the loop goes on with the next |
| Scenarios.CacheFileStep | hadoop-java-distcache-example/src/main/java/st/ata/vcc/examples/hadoop/mapred/wordcount/WordCountAndReplace.java:155-157 | "-replace" takes the next argument as a cached file and the loop goes on after it |
| Scenarios.ReplaceBeforePaths | hadoop-java-distcache-example/src/main/java/st/ata/vcc/examples/hadoop/mapred/wordcount/WordCountAndReplace.java:153-164 | `-replace dict in out` caches dict, sets the flag and takes in and out as the paths |
| Scenarios.ExtraArgumentIgnored | hadoop-java-distcache-example/src/main/java/st/ata/vcc/examples/hadoop/mapred/wordcount/WordCountAndReplace.java:153-164 | a third other argument is ignored |
| Scenarios.TrailingReplace | hadoop-java-distcache-example/src/main/java/st/ata/vcc/examples/hadoop/mapred/wordcount/WordCountAndReplace.java:155-156 | a trailing "-replace" reads past the end of the arguments |
| Scenarios.ReplaceFileIsNoPath | hadoop-java-distcache-example/src/main/java/st/ata/vcc/examples/hadoop/mapred/wordcount/WordCountAndReplace.java:153-164 | the argument after "-replace" is not a path, so with one other argument the output path is missing |
| Scenarios.TwoDictionaryLines | hadoop-java-distcache-example/src/main/java/st/ata/vcc/examples/hadoop/mapred/wordcount/WordCountAndReplace.java:87-93 | skipping loader: the lines `x y` and `p q` give x to y and p to q |
| Scenarios.SingleWordLineSkipped | hadoop-java-distcache-example/src/main/java/st/ata/vcc/examples/hadoop/mapred/wordcount/WordCountAndReplace.java:88-92 | skipping loader: with a one-word line between them, both well-formed lines are still loaded |
| Scenarios.ReplaceAtStart | hadoop-java-distcache-example/src/main/java/st/ata/vcc/examples/hadoop/mapred/wordcount/WordCountAndReplace.java:110 | `bar baz` with bar replaced by qux is `qux baz` |
| Scenarios.SecondRecordLine | hadoop-java-distcache-example/src/main/java/st/ata/vcc/examples/hadoop/mapred/wordcount/WordCountAndReplace.java:103-112 | with bar to qux still in the table, whichever order it is iterated in, the record `bar baz` becomes `qux baz` |
| Scenarios.DictionaryReachesEveryRecord | hadoop-java-distcache-example/src/main/java/st/ata/vcc/examples/hadoop/mapred/wordcount/WordCountAndReplace.java:100-123 | when the table is kept, the records `foo bar` and `bar baz` are emitted as foo, qux and qux, baz |

## Left out

- The Hadoop job wiring in `run` is not modelled: job name, key and value classes, input and output formats, and `JobClient.runJob`. It only configures the framework. Which classes are set as mapper, combiner and reducer is reflected in `CombinerSound`.
- The distributed cache is not modelled: `DistributedCache.addCacheFile` and `getLocalCacheFiles`. `Configure` takes the cached files as a parameter, and `None` stands for an `IOException` from the lookup. A lookup that returns `null` is not modelled.
- File reading is not modelled. A dictionary file is given as its lines plus a flag: the flag says an `IOException` ended the reading after those lines. An exception while opening the file is the same flag with no lines.
- Standard error and `Reporter` output are not modelled. The text printed to standard error becomes `Diagnostic` values. The status message is not modelled: `Map` returns only whether `setStatus` is called.
- JavaText.ReplaceAll: the regular-expression meaning of the key is not modelled. The key is matched literally, left to right, without overlaps, and the empty key inserts the replacement at every position. In the replacement, `$` and `\` group references are also not modelled. A key containing regex metacharacters therefore behaves differently in the code.
- JavaText.JavaSplit: only the single-character fast path of `split(" ")` is modelled. That is the only pattern the code uses.
- WordCountAndReplace.Mapper.Map: the order of `HashMap` iteration is not fixed. The order is an unconstrained ghost output, proved to list every old key exactly once.
- WordCountAndReplace.Mapper.Map: `numRecords` is a Java `long`. Its overflow, after 2^63 records, is not modelled (`nat`).
- WordCountAndReplace.Mapper.Configure: an absent `map.input.file` (Java `null`) is modelled as the empty name.
- Characters are Dafny `char`, not UTF-16 code units. Line terminators are not modelled: a file's lines are given as `readLine` returns them.
- WordCountAndReplace.ParseArguments: `new Path(...)` validation (for example of an empty string) is not modelled. Arguments after the first two other arguments are kept but unused, as in the code.
- WordCountAndReplace.Mapper.ParseReplaceFileSkipping: the corrected loader covers one file. The corrected members are not wired into `Configure`, whose file loop cannot abort once a file no longer does.
- Hadoop's parallel execution is not modelled: splitting the input, shuffling, and grouping values by key. The reducer takes one key's values as a sequence, and `SumPermutation` shows their arrival order does not matter.

## Findings

| source | as written | input that shows it | evidently intended | confidence | as-written member | corrected member |
|---|---|---|---|---|---|---|
| hadoop-java-distcache-example/src/main/java/st/ata/vcc/examples/hadoop/mapred/wordcount/WordCountAndReplace.java:103-112 | `map` removes every dictionary entry through the iterator (`it.remove()`) while applying it. The first record therefore empties the table, and later records of the same mapper are not rewritten. | Dictionary `bar qux`, records `foo bar` and `bar baz`: the pairs are foo, qux, then bar, baz. | Every record is rewritten with the whole dictionary: foo, qux, then qux, baz. The removal was meant only to iterate safely. | high; not executed | Scenarios.DictionaryReachesFirstRecordOnly | WordCountAndReplace.Mapper.MapKeepingDictionary |
| hadoop-java-distcache-example/src/main/java/st/ata/vcc/examples/hadoop/mapred/wordcount/WordCountAndReplace.java:88-92 | A dictionary line that splits into fewer than two parts gets the "can't parse" warning. Then `line[1]` throws `ArrayIndexOutOfBoundsException`. The `IOException` handler does not catch it, so the exception ends `configure` and the lines and files after it are never loaded. | Dictionary lines `x y`, `singleword`, `p q`: the table holds only x; p is never stored, and the worker fails. | The line is reported and skipped, and loading goes on: the table holds x and p. | medium; not executed | Scenarios.SingleWordLineAborts | WordCountAndReplace.Mapper.ParseReplaceFileSkipping |
