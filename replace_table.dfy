/**
  What `Map.parseReplaceFile` and the file loop of `Map.configure` do to the
  replacement table, as functions of the table they start from and the lines they
  read. The class `WordCount.Mapper` runs the same steps in place and is proved to
  agree with these functions.
*/
module ReplaceTable {
  import opened Wrappers
  import opened JavaText

  /** The replacement table: word to replace, and what to replace it with. */
  type Table = map<string, string>

  /** One message written to the diagnostic stream (only the fact, not the text). */
  datatype Diagnostic =
    | UnparsableLine(line: string)  // a dictionary line that does not split into exactly two parts
    | ReadFailed                    // an IOException while opening or reading a dictionary file
    | CacheLookupFailed             // an IOException while asking for the cached files

  /**
    A cached dictionary file as the worker reads it: the lines it delivers, and
    whether an IOException ended the reading after them (at open time when no line
    was delivered).
  */
  datatype ReplaceFile = ReplaceFile(lines: seq<string>, readFailed: bool)

  /**
    The effect of reading lines: the table, the diagnostics written, and the index of
    the line whose `line[0]` or `line[1]` was out of bounds, which throws an
    unchecked exception that ends the reading (and the worker).
  */
  datatype Loaded = Loaded(table: Table, diagnostics: seq<Diagnostic>, failedAt: Option<nat>)

  /** The same after whole files: `aborted` when the unchecked exception escaped. */
  datatype LoadOutcome = LoadOutcome(table: Table, diagnostics: seq<Diagnostic>, aborted: bool)

  /** One iteration of the readLine loop, the line being number `index`. */
  function LoadLine(table: Table, diagnostics: seq<Diagnostic>, line: string, index: nat): Loaded
  {
    var parts := JavaSplit(line);
    var diagnostics' := if |parts| != 2 then diagnostics + [UnparsableLine(line)] else diagnostics;
    if |parts| < 2 then Loaded(table, diagnostics', Some(index))
    else Loaded(table[parts[0] := parts[1]], diagnostics', None)
  }

  /** Reading `lines` in order into `table`; nothing after a failing line is read. */
  function LoadLines(table: Table, lines: seq<string>): (r: Loaded)
    ensures r.failedAt.Some? ==> r.failedAt.value < |lines|
    decreases |lines|
  {
    if lines == [] then Loaded(table, [], None)
    else
      var prev := LoadLines(table, lines[..|lines| - 1]);
      if prev.failedAt.Some? then prev
      else LoadLine(prev.table, prev.diagnostics, lines[|lines| - 1], |lines| - 1)
  }

  /** How many of `lines` were stored: all of them, or those before the failing one. */
  function Stored(lines: seq<string>, r: Loaded): nat
  {
    match r.failedAt
    case Some(n) => n
    case None => |lines|
  }

  /** How many of `lines` were looked at: the stored ones, and the failing one. */
  function Examined(lines: seq<string>, r: Loaded): nat
  {
    match r.failedAt
    case Some(n) => n + 1
    case None => |lines|
  }

  /** The warnings a sequence of lines deserves: one per line not of exactly two parts. */
  function Malformed(lines: seq<string>): seq<Diagnostic>
  {
    if lines == [] then []
    else (if |JavaSplit(lines[0])| != 2 then [UnparsableLine(lines[0])] else []) + Malformed(lines[1..])
  }

  lemma {:induction false} MalformedAppend(lines: seq<string>, line: string)
    ensures Malformed(lines + [line]) == Malformed(lines) + Malformed([line])
    decreases |lines|
  {
    if lines != [] {
      assert (lines + [line])[1..] == lines[1..] + [line];
      MalformedAppend(lines[1..], line);
    }
  }

  /**
    Reading stops exactly at the first line that splits into fewer than two parts,
    and runs to the end exactly when there is none.
  */
  lemma {:induction false} LoadLinesFailure(table: Table, lines: seq<string>)
    ensures LoadLines(table, lines).failedAt.None? <==>
              forall i :: 0 <= i < |lines| ==> |JavaSplit(lines[i])| >= 2
    ensures LoadLines(table, lines).failedAt.Some? ==>
              var n := LoadLines(table, lines).failedAt.value;
              && n < |lines|
              && |JavaSplit(lines[n])| < 2
              && forall i :: 0 <= i < n ==> |JavaSplit(lines[i])| >= 2
    decreases |lines|
  {
    if lines != [] {
      var last := |lines| - 1;
      var front := lines[..last];
      LoadLinesFailure(table, front);
      assert forall i :: 0 <= i < |front| ==> front[i] == lines[i];
      var prev := LoadLines(table, front);
      if prev.failedAt.Some? {
        assert LoadLines(table, lines) == prev;
      } else {
        assert LoadLines(table, lines) == LoadLine(prev.table, prev.diagnostics, lines[last], last);
      }
    }
  }

  /** The lines before `Stored` all split into at least two parts. */
  lemma LoadLinesStored(table: Table, lines: seq<string>)
    ensures Stored(lines, LoadLines(table, lines)) <= |lines|
    ensures forall i :: 0 <= i < Stored(lines, LoadLines(table, lines)) ==> |JavaSplit(lines[i])| >= 2
  {
    LoadLinesFailure(table, lines);
  }

  /** Its keys are the old keys and the first parts of the stored lines. */
  lemma {:induction false} LoadLinesKeys(table: Table, lines: seq<string>)
    ensures Stored(lines, LoadLines(table, lines)) <= |lines|
    ensures forall i :: 0 <= i < Stored(lines, LoadLines(table, lines)) ==> |JavaSplit(lines[i])| >= 2
    ensures forall k :: k in LoadLines(table, lines).table <==>
              k in table ||
              exists i :: 0 <= i < Stored(lines, LoadLines(table, lines)) && JavaSplit(lines[i])[0] == k
    decreases |lines|
  {
    LoadLinesStored(table, lines);
    if lines != [] {
      var last := |lines| - 1;
      var front := lines[..last];
      var prev := LoadLines(table, front);
      LoadLinesKeys(table, front);
      assert forall i :: 0 <= i < |front| ==> front[i] == lines[i];
      var r := LoadLines(table, lines);
      if prev.failedAt.None? {
        var parts := JavaSplit(lines[last]);
        if |parts| >= 2 {
          assert r.table == prev.table[parts[0] := parts[1]];
          forall k | k in r.table
            ensures k in table || exists i :: 0 <= i < |lines| && JavaSplit(lines[i])[0] == k
          {
            if k == parts[0] {
              assert JavaSplit(lines[last])[0] == k;
            }
          }
        }
      }
    }
  }

  /**
    A stored line whose first part no later stored line repeats maps that part to
    its second part: the last line for a key wins, also when the line has more than
    two parts.
  */
  lemma {:induction false} LoadLinesLastWins(table: Table, lines: seq<string>, i: nat)
    requires i < Stored(lines, LoadLines(table, lines))
    requires |JavaSplit(lines[i])| >= 2
    requires forall j :: i < j < Stored(lines, LoadLines(table, lines)) ==>
               |JavaSplit(lines[j])| >= 2 && JavaSplit(lines[j])[0] != JavaSplit(lines[i])[0]
    ensures JavaSplit(lines[i])[0] in LoadLines(table, lines).table
    ensures LoadLines(table, lines).table[JavaSplit(lines[i])[0]] == JavaSplit(lines[i])[1]
    decreases |lines|
  {
    var last := |lines| - 1;
    var front := lines[..last];
    var prev := LoadLines(table, front);
    var r := LoadLines(table, lines);
    assert forall j :: 0 <= j < |front| ==> front[j] == lines[j];
    if prev.failedAt.Some? {
      assert r == prev;
      LoadLinesLastWins(table, front, i);
    } else {
      var parts := JavaSplit(lines[last]);
      if |parts| < 2 {
        assert r.table == prev.table;
        LoadLinesLastWins(table, front, i);
      } else if i < last {
        assert r.table == prev.table[parts[0] := parts[1]];
        LoadLinesLastWins(table, front, i);
      }
    }
  }

  /** An old key that no stored line names keeps its value. */
  lemma {:induction false} LoadLinesUntouched(table: Table, lines: seq<string>, k: string)
    requires k in table
    requires forall i :: 0 <= i < Stored(lines, LoadLines(table, lines)) ==>
               |JavaSplit(lines[i])| >= 2 && JavaSplit(lines[i])[0] != k
    ensures k in LoadLines(table, lines).table && LoadLines(table, lines).table[k] == table[k]
    decreases |lines|
  {
    if lines != [] {
      var last := |lines| - 1;
      var front := lines[..last];
      var prev := LoadLines(table, front);
      assert forall j :: 0 <= j < |front| ==> front[j] == lines[j];
      LoadLinesStored(table, front);
      LoadLinesUntouched(table, front, k);
    }
  }

  lemma MalformedOne(line: string)
    ensures Malformed([line]) == if |JavaSplit(line)| != 2 then [UnparsableLine(line)] else []
  {
    assert [line][1..] == [];
  }

  /** The warnings written are those of the examined lines, in order. */
  lemma {:induction false} LoadLinesDiagnostics(table: Table, lines: seq<string>)
    ensures Examined(lines, LoadLines(table, lines)) <= |lines|
    ensures LoadLines(table, lines).diagnostics == Malformed(lines[..Examined(lines, LoadLines(table, lines))])
    decreases |lines|
  {
    if lines != [] {
      var last := |lines| - 1;
      var front := lines[..last];
      var prev := LoadLines(table, front);
      var r := LoadLines(table, lines);
      LoadLinesDiagnostics(table, front);
      var m := Examined(front, prev);
      if prev.failedAt.Some? {
        assert r == prev;
        assert front[..m] == lines[..m];
      } else {
        assert front[..m] == front;
        var parts := JavaSplit(lines[last]);
        assert r.diagnostics == prev.diagnostics + if |parts| != 2 then [UnparsableLine(lines[last])] else [];
        assert Examined(lines, r) == |lines|;
        assert lines[..|lines|] == front + [lines[last]];
        MalformedAppend(front, lines[last]);
        MalformedOne(lines[last]);
      }
    }
  }

  /** Reading `a` and then `b` into one table is reading `a + b`. */
  lemma {:induction false} LoadLinesAppend(table: Table, a: seq<string>, b: seq<string>)
    ensures var ra := LoadLines(table, a);
            var rb := LoadLines(ra.table, b);
            && LoadLines(table, a + b).table == (if ra.failedAt.Some? then ra.table else rb.table)
            && LoadLines(table, a + b).diagnostics ==
                 (if ra.failedAt.Some? then ra.diagnostics else ra.diagnostics + rb.diagnostics)
            && (LoadLines(table, a + b).failedAt.Some? <==> ra.failedAt.Some? || rb.failedAt.Some?)
    decreases |b|
  {
    var ra := LoadLines(table, a);
    if b == [] {
      assert a + b == a;
    } else {
      var b' := b[..|b| - 1];
      var x := b[|b| - 1];
      assert (a + b)[..|a + b| - 1] == a + b';
      assert (a + b)[|a + b| - 1] == x;
      LoadLinesAppend(table, a, b');
      var prev := LoadLines(table, a + b');
      var rb' := LoadLines(ra.table, b');
      var r := LoadLines(table, a + b);
      var rb := LoadLines(ra.table, b);
      if prev.failedAt.Some? {
        assert r == prev;
        if ra.failedAt.None? {
          assert rb'.failedAt.Some?;
          assert rb == rb';
        }
      } else {
        assert ra.failedAt.None? && rb'.failedAt.None?;
        assert r == LoadLine(prev.table, prev.diagnostics, x, |a + b| - 1);
        assert rb == LoadLine(rb'.table, rb'.diagnostics, x, |b| - 1);
      }
    }
  }

  /** Once a failing line has been read, the lines after it change nothing. */
  lemma {:induction false} LoadLinesStops(table: Table, lines: seq<string>, n: nat)
    requires n <= |lines|
    requires LoadLines(table, lines[..n]).failedAt.Some?
    ensures LoadLines(table, lines) == LoadLines(table, lines[..n])
    decreases |lines| - n
  {
    if n < |lines| {
      var front := lines[..|lines| - 1];
      assert front[..n] == lines[..n];
      LoadLinesStops(table, front, n);
    } else {
      assert lines[..n] == lines;
    }
  }

  // ---------------------------------------------------------------------------
  // Loading that skips a short line instead of ending
  // ---------------------------------------------------------------------------

  /**
    Reading `lines` when a line that splits into fewer than two parts is only
    reported and skipped: the warning that `parseReplaceFile` prints announces
    this, but its `line[1]` throws instead.
  */
  function SkipLoad(table: Table, lines: seq<string>): Table
    decreases |lines|
  {
    if lines == [] then table
    else
      var prev := SkipLoad(table, lines[..|lines| - 1]);
      var parts := JavaSplit(lines[|lines| - 1]);
      if |parts| < 2 then prev else prev[parts[0] := parts[1]]
  }

  /** A short line has no effect: the lines before and after it load as without it. */
  lemma {:induction false} SkipLoadSkips(table: Table, a: seq<string>, line: string, b: seq<string>)
    requires |JavaSplit(line)| < 2
    ensures SkipLoad(table, a + [line] + b) == SkipLoad(table, a + b)
    decreases |b|
  {
    if b == [] {
      assert (a + [line] + b)[..|a|] == a;
      assert a + b == a;
    } else {
      var b' := b[..|b| - 1];
      var x := b[|b| - 1];
      assert (a + [line] + b)[..|a + [line] + b| - 1] == a + [line] + b';
      assert (a + [line] + b)[|a + [line] + b| - 1] == x;
      assert (a + b)[..|a + b| - 1] == a + b';
      assert (a + b)[|a + b| - 1] == x;
      SkipLoadSkips(table, a, line, b');
    }
  }

  /** One more line, skipped or stored, with its warning if it is not of two parts. */
  lemma SkipLoadStep(table: Table, lines: seq<string>, i: nat)
    requires i < |lines|
    ensures var parts := JavaSplit(lines[i]);
            var prev := SkipLoad(table, lines[..i]);
            && SkipLoad(table, lines[..i + 1]) == (if |parts| < 2 then prev else prev[parts[0] := parts[1]])
            && Malformed(lines[..i + 1]) ==
                 Malformed(lines[..i]) + (if |parts| != 2 then [UnparsableLine(lines[i])] else [])
  {
    assert lines[..i + 1] == lines[..i] + [lines[i]];
    assert lines[..i + 1][..i] == lines[..i];
    MalformedAppend(lines[..i], lines[i]);
    assert [lines[i]][1..] == [];
  }

  /** Some line of `lines` splits into two or more parts, the first being `k`. */
  predicate Names(lines: seq<string>, k: string)
  {
    exists i :: 0 <= i < |lines| && |JavaSplit(lines[i])| >= 2 && JavaSplit(lines[i])[0] == k
  }

  lemma NamesSnoc(lines: seq<string>, k: string)
    requires lines != []
    ensures Names(lines, k) <==>
              Names(lines[..|lines| - 1], k) ||
              (|JavaSplit(lines[|lines| - 1])| >= 2 && JavaSplit(lines[|lines| - 1])[0] == k)
  {
    var front := lines[..|lines| - 1];
    assert forall i :: 0 <= i < |front| ==> front[i] == lines[i];
    if Names(lines, k) {
      var i :| 0 <= i < |lines| && |JavaSplit(lines[i])| >= 2 && JavaSplit(lines[i])[0] == k;
      if i < |front| {
        assert front[i] == lines[i];
      }
    }
  }

  /** Its keys are the old keys and the first parts of every line of two or more parts. */
  lemma {:induction false} SkipLoadKeys(table: Table, lines: seq<string>)
    ensures forall k :: k in SkipLoad(table, lines) <==> k in table || Names(lines, k)
    decreases |lines|
  {
    if lines != [] {
      var front := lines[..|lines| - 1];
      SkipLoadKeys(table, front);
      forall k {
        NamesSnoc(lines, k);
      }
    }
  }

  /** Where the code does not fail, skipping builds the same table. */
  lemma {:induction false} SkipLoadAgrees(table: Table, lines: seq<string>)
    requires LoadLines(table, lines).failedAt.None?
    ensures SkipLoad(table, lines) == LoadLines(table, lines).table
    decreases |lines|
  {
    if lines != [] {
      SkipLoadAgrees(table, lines[..|lines| - 1]);
    }
  }

  /** `parseReplaceFile` on one file: the lines, then the IOException if there was one. */
  function LoadFile(table: Table, file: ReplaceFile): LoadOutcome
  {
    var r := LoadLines(table, file.lines);
    if r.failedAt.Some? then LoadOutcome(r.table, r.diagnostics, true)
    else LoadOutcome(r.table, r.diagnostics + (if file.readFailed then [ReadFailed] else []), false)
  }

  /** The loop over the cached files; an escaping exception ends it. */
  function LoadFiles(table: Table, files: seq<ReplaceFile>): LoadOutcome
    decreases |files|
  {
    if files == [] then LoadOutcome(table, [], false)
    else
      var prev := LoadFiles(table, files[..|files| - 1]);
      if prev.aborted then prev
      else
        var r := LoadFile(prev.table, files[|files| - 1]);
        LoadOutcome(r.table, prev.diagnostics + r.diagnostics, r.aborted)
  }

  /** One more file, when the loop has not aborted yet. */
  lemma LoadFilesStep(table: Table, files: seq<ReplaceFile>, i: nat)
    requires i < |files|
    requires !LoadFiles(table, files[..i]).aborted
    ensures var prev := LoadFiles(table, files[..i]);
            var r := LoadFile(prev.table, files[i]);
            LoadFiles(table, files[..i + 1]) == LoadOutcome(r.table, prev.diagnostics + r.diagnostics, r.aborted)
  {
    assert files[..i + 1][..i] == files[..i];
  }

  /** Once a file has aborted the loop, the files after it change nothing. */
  lemma {:induction false} LoadFilesStops(table: Table, files: seq<ReplaceFile>, n: nat)
    requires n <= |files|
    requires LoadFiles(table, files[..n]).aborted
    ensures LoadFiles(table, files) == LoadFiles(table, files[..n])
    decreases |files| - n
  {
    if n < |files| {
      var front := files[..|files| - 1];
      assert front[..n] == files[..n];
      LoadFilesStops(table, front, n);
    } else {
      assert files[..n] == files;
    }
  }

  /** All lines of all files, in order. */
  function AllLines(files: seq<ReplaceFile>): seq<string>
  {
    if files == [] then [] else AllLines(files[..|files| - 1]) + files[|files| - 1].lines
  }

  /**
    Since every file goes into the same table, loading several files builds the
    table that one file holding all their lines would, and aborts when that one
    would.
  */
  lemma {:induction false} LoadFilesAsOneFile(table: Table, files: seq<ReplaceFile>)
    ensures LoadFiles(table, files).table == LoadLines(table, AllLines(files)).table
    ensures LoadFiles(table, files).aborted <==> LoadLines(table, AllLines(files)).failedAt.Some?
    decreases |files|
  {
    if files != [] {
      var front := files[..|files| - 1];
      LoadFilesAsOneFile(table, front);
      LoadLinesAppend(table, AllLines(front), files[|files| - 1].lines);
    }
  }
}
