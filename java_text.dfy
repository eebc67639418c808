/**
  The three pieces of the Java class library that the word-count core leans on,
  stated over `string` (a sequence of `char`):

  - `String.split(" ")`, whose single-character pattern takes the literal fast path:
    cut at every space, keep a leading empty piece, drop trailing empty pieces, and
    return the whole string when it holds no space at all;
  - `String.replaceAll(pattern, replacement)` for a pattern and replacement that hold
    no regular-expression syntax: literal, left-to-right, non-overlapping
    replacement, the empty pattern matching at every position;
  - `java.util.StringTokenizer` with its default delimiters, as an object whose
    position advances token by token.
*/
module JavaText {

  // ---------------------------------------------------------------------------
  // String.split(" ")
  // ---------------------------------------------------------------------------

  /** `n` spaces. */
  function Spaces(n: nat): (r: string)
    ensures |r| == n
    ensures forall i :: 0 <= i < n ==> r[i] == ' '
  {
    if n == 0 then "" else Spaces(n - 1) + " "
  }

  /** The parts glued back together, one space between neighbours. */
  function Join(parts: seq<string>): string
  {
    if parts == [] then ""
    else if |parts| == 1 then parts[0]
    else parts[0] + " " + Join(parts[1..])
  }

  predicate SpaceFree(s: string)
  {
    ' ' !in s
  }

  /** Every piece between two spaces (or an end), empty pieces included. */
  function RawSplit(s: string): (parts: seq<string>)
    ensures |parts| >= 1
    decreases |s|
  {
    if s == [] then [""]
    else
      var rest := RawSplit(s[1..]);
      if s[0] == ' ' then [""] + rest
      else [[s[0]] + rest[0]] + rest[1..]
  }

  /** `parts` with its trailing empty strings removed. */
  function DropTrailingEmpty(parts: seq<string>): seq<string>
  {
    if parts != [] && parts[|parts| - 1] == "" then DropTrailingEmpty(parts[..|parts| - 1])
    else parts
  }

  lemma {:induction false} DropTrailingEmptySpec(parts: seq<string>)
    ensures |DropTrailingEmpty(parts)| <= |parts|
    ensures DropTrailingEmpty(parts) == parts[..|DropTrailingEmpty(parts)|]
    ensures DropTrailingEmpty(parts) == [] || DropTrailingEmpty(parts)[|DropTrailingEmpty(parts)| - 1] != ""
    ensures forall i :: |DropTrailingEmpty(parts)| <= i < |parts| ==> parts[i] == ""
    decreases |parts|
  {
    if parts != [] && parts[|parts| - 1] == "" {
      DropTrailingEmptySpec(parts[..|parts| - 1]);
    }
  }

  /** Java's `s.split(" ")` (regular expression of one plain character, limit 0). */
  function JavaSplit(s: string): seq<string>
  {
    if ' ' !in s then [s] else DropTrailingEmpty(RawSplit(s))
  }

  lemma {:induction false} JoinSnoc(parts: seq<string>, x: string)
    requires parts != []
    ensures Join(parts + [x]) == Join(parts) + " " + x
    decreases |parts|
  {
    if |parts| == 1 {
      assert parts + [x] == [parts[0], x];
    } else {
      assert (parts + [x])[1..] == parts[1..] + [x];
      JoinSnoc(parts[1..], x);
    }
  }

  lemma {:induction false} RawSplitJoin(s: string)
    ensures Join(RawSplit(s)) == s
    ensures forall i :: 0 <= i < |RawSplit(s)| ==> SpaceFree(RawSplit(s)[i])
    decreases |s|
  {
    if s != [] {
      var rest := RawSplit(s[1..]);
      RawSplitJoin(s[1..]);
      if s[0] == ' ' {
        assert ([""] + rest)[1..] == rest;
      } else {
        var parts := [[s[0]] + rest[0]] + rest[1..];
        if |rest| > 1 {
          assert parts[1..] == rest[1..];
        }
        forall i | 0 <= i < |parts| ensures SpaceFree(parts[i]) {
          if i == 0 {
            assert SpaceFree(rest[0]);
          } else {
            assert parts[i] == rest[i];
          }
        }
      }
    }
  }

  lemma {:induction false} DropTrailingEmptyJoin(parts: seq<string>)
    ensures |Join(DropTrailingEmpty(parts))| <= |Join(parts)|
    ensures Join(parts) == Join(DropTrailingEmpty(parts))
                           + Spaces(|Join(parts)| - |Join(DropTrailingEmpty(parts))|)
    decreases |parts|
  {
    if parts != [] && parts[|parts| - 1] == "" {
      var front := parts[..|parts| - 1];
      assert parts == front + [""];
      DropTrailingEmptyJoin(front);
      if front != [] {
        JoinSnoc(front, "");
        var d := Join(DropTrailingEmpty(front));
        var n := |Join(front)| - |d|;
        assert Spaces(n) + " " == Spaces(n + 1);
      }
    } else {
      assert Join(parts) == Join(parts) + Spaces(0);
    }
  }

  /**
    What `split(" ")` promises: no part holds a space; the parts joined by single
    spaces give back the input up to a run of trailing spaces; when the input holds
    no space it is its own single part; otherwise the last part (if any) is not
    empty.
  */
  lemma {:induction false} JavaSplitSpec(s: string)
    ensures forall i :: 0 <= i < |JavaSplit(s)| ==> SpaceFree(JavaSplit(s)[i])
    ensures ' ' !in s ==> JavaSplit(s) == [s]
    ensures ' ' in s ==> JavaSplit(s) == [] || JavaSplit(s)[|JavaSplit(s)| - 1] != ""
    ensures |Join(JavaSplit(s))| <= |s|
    ensures s == Join(JavaSplit(s)) + Spaces(|s| - |Join(JavaSplit(s))|)
  {
    if ' ' in s {
      var raw := RawSplit(s);
      var parts := DropTrailingEmpty(raw);
      assert JavaSplit(s) == parts;
      RawSplitJoin(s);
      DropTrailingEmptySpec(raw);
      DropTrailingEmptyJoin(raw);
      forall i | 0 <= i < |parts| ensures SpaceFree(parts[i]) {
        assert parts[i] == raw[i];
      }
    } else {
      assert s == s + Spaces(0);
    }
  }

  lemma {:induction false} RawSplitWord(w: string, t: string)
    requires SpaceFree(w)
    ensures RawSplit(w) == [w]
    ensures RawSplit(w + " " + t) == [w] + RawSplit(t)
    decreases |w|
  {
    if w == [] {
      assert (w + " " + t)[1..] == t;
    } else {
      RawSplitWord(w[1..], t);
      assert (w + " " + t)[1..] == w[1..] + " " + t;
      assert [w[0]] + w[1..] == w;
    }
  }

  lemma {:induction false} RawSplitOfJoin(parts: seq<string>)
    requires parts != []
    requires forall i :: 0 <= i < |parts| ==> SpaceFree(parts[i])
    ensures RawSplit(Join(parts)) == parts
    decreases |parts|
  {
    if |parts| == 1 {
      RawSplitWord(parts[0], "");
    } else {
      RawSplitOfJoin(parts[1..]);
      RawSplitWord(parts[0], Join(parts[1..]));
      assert Join(parts) == parts[0] + " " + Join(parts[1..]);
      assert [parts[0]] + parts[1..] == parts;
    }
  }

  /**
    Round trip: splitting a line made of space-free words joined by single spaces
    gives the words back, provided the last word is not empty (or there is just
    one word).
  */
  lemma JavaSplitJoin(parts: seq<string>)
    requires parts != []
    requires forall i :: 0 <= i < |parts| ==> SpaceFree(parts[i])
    requires |parts| == 1 || parts[|parts| - 1] != ""
    ensures JavaSplit(Join(parts)) == parts
  {
    RawSplitOfJoin(parts);
    if |parts| > 1 {
      assert Join(parts)[|parts[0]|] == ' ';
    }
  }

  // ---------------------------------------------------------------------------
  // String.replaceAll(pattern, replacement), for literal pattern and replacement
  // ---------------------------------------------------------------------------

  /** The empty pattern matches before every character and at the end. */
  function InsertEverywhere(s: string, r: string): string
  {
    if s == [] then r else r + [s[0]] + InsertEverywhere(s[1..], r)
  }

  function ReplaceAll(s: string, pattern: string, replacement: string): string
    decreases |s|
  {
    if pattern == [] then InsertEverywhere(s, replacement)
    else if |s| < |pattern| then s
    else if s[..|pattern|] == pattern then replacement + ReplaceAll(s[|pattern|..], pattern, replacement)
    else [s[0]] + ReplaceAll(s[1..], pattern, replacement)
  }

  /** Whether `pattern` occurs in `s` starting at index `i`. */
  predicate OccursAt(s: string, pattern: string, i: nat)
  {
    i + |pattern| <= |s| && s[i..i + |pattern|] == pattern
  }

  predicate Occurs(s: string, pattern: string)
  {
    exists i: nat | i <= |s| :: OccursAt(s, pattern, i)
  }

  /** A non-empty pattern that does not occur leaves the string as it is. */
  lemma {:induction false} ReplaceAllAbsent(s: string, pattern: string, replacement: string)
    requires pattern != []
    requires !Occurs(s, pattern)
    ensures ReplaceAll(s, pattern, replacement) == s
    decreases |s|
  {
    if |s| >= |pattern| {
      assert !OccursAt(s, pattern, 0);
      assert s[..|pattern|] == s[0..0 + |pattern|];
      assert !Occurs(s[1..], pattern) by {
        forall i: nat | i <= |s[1..]| && OccursAt(s[1..], pattern, i) ensures false {
          assert s[1..][i..i + |pattern|] == s[i + 1..i + 1 + |pattern|];
          assert OccursAt(s, pattern, i + 1);
        }
      }
      ReplaceAllAbsent(s[1..], pattern, replacement);
      assert [s[0]] + s[1..] == s;
    }
  }

  /** Where the pattern does not start, the first character is kept. */
  lemma ReplaceAllKeep(s: string, pattern: string, replacement: string)
    requires pattern != [] && s != []
    requires !OccursAt(s, pattern, 0)
    ensures ReplaceAll(s, pattern, replacement) == [s[0]] + ReplaceAll(s[1..], pattern, replacement)
  {
    if |s| >= |pattern| {
      assert s[..|pattern|] == s[0..0 + |pattern|];
    } else {
      assert [s[0]] + s[1..] == s;
      assert |s[1..]| < |pattern|;
    }
  }

  /** An occurrence at `i + 1` of `s` is one at `i` of `s[1..]`. */
  lemma OccursAtTail(s: string, pattern: string, i: nat)
    requires s != []
    requires OccursAt(s[1..], pattern, i)
    ensures OccursAt(s, pattern, i + 1)
  {
    assert s[1..][i..i + |pattern|] == s[i + 1..i + 1 + |pattern|];
  }

  /**
    The first occurrence is replaced: when `pattern` occurs nowhere in front of
    the one right after `a`, the result is `a`, the replacement, and the rest
    replaced in turn. With `ReplaceAllAbsent` this pins down every non-empty
    pattern.
  */
  lemma {:induction false} ReplaceAllFirst(a: string, pattern: string, b: string, replacement: string)
    requires pattern != []
    requires forall i :: 0 <= i < |a| ==> !OccursAt(a + pattern + b, pattern, i)
    ensures ReplaceAll(a + pattern + b, pattern, replacement) == a + replacement + ReplaceAll(b, pattern, replacement)
    decreases |a|
  {
    var s := a + pattern + b;
    if a == [] {
      assert s == pattern + b;
      assert s[..|pattern|] == pattern && s[|pattern|..] == b;
    } else {
      var a' := a[1..];
      assert s[1..] == a' + pattern + b;
      ReplaceAllKeep(s, pattern, replacement);
      forall i | 0 <= i < |a'| ensures !OccursAt(a' + pattern + b, pattern, i) {
        if OccursAt(s[1..], pattern, i) {
          OccursAtTail(s, pattern, i);
        }
      }
      ReplaceAllFirst(a', pattern, b, replacement);
      assert [s[0]] + a' == a;
    }
  }

  lemma {:induction false} InsertNothing(s: string)
    ensures InsertEverywhere(s, "") == s
    decreases |s|
  {
    if s != [] {
      InsertNothing(s[1..]);
      assert [s[0]] + s[1..] == s;
    }
  }

  /** Replacing a pattern by itself changes nothing. */
  lemma {:induction false} ReplaceAllSelf(s: string, pattern: string)
    ensures ReplaceAll(s, pattern, pattern) == s
    decreases |s|
  {
    if pattern == [] {
      InsertNothing(s);
    } else if |s| >= |pattern| {
      if s[..|pattern|] == pattern {
        ReplaceAllSelf(s[|pattern|..], pattern);
        assert s[..|pattern|] + s[|pattern|..] == s;
      } else {
        ReplaceAllSelf(s[1..], pattern);
        assert [s[0]] + s[1..] == s;
      }
    }
  }

  // ---------------------------------------------------------------------------
  // java.util.StringTokenizer with the default delimiters
  // ---------------------------------------------------------------------------

  /** The default delimiter set " \t\n\r\f". */
  predicate IsDelimiter(c: char)
  {
    c == ' ' || c == '\t' || c == '\n' || c == '\r' || c == '\U{000C}'
  }

  predicate DelimiterFree(w: string)
  {
    forall i :: 0 <= i < |w| ==> !IsDelimiter(w[i])
  }

  /** Length of the run of non-delimiters at the front of `s`. */
  function RunLength(s: string): (n: nat)
    ensures n <= |s|
    ensures forall i :: 0 <= i < n ==> !IsDelimiter(s[i])
    ensures n < |s| ==> IsDelimiter(s[n])
  {
    if s == [] || IsDelimiter(s[0]) then 0 else 1 + RunLength(s[1..])
  }

  /** The tokens of `s`: its maximal runs of non-delimiters, left to right. */
  function Tokens(s: string): seq<string>
    decreases |s|
  {
    if s == [] then []
    else if IsDelimiter(s[0]) then Tokens(s[1..])
    else
      var n := RunLength(s);
      [s[..n]] + Tokens(s[n..])
  }

  /** Every token is non-empty and holds no delimiter. */
  lemma {:induction false} TokensWellFormed(s: string)
    ensures forall i :: 0 <= i < |Tokens(s)| ==> Tokens(s)[i] != [] && DelimiterFree(Tokens(s)[i])
    decreases |s|
  {
    if s != [] {
      if IsDelimiter(s[0]) {
        TokensWellFormed(s[1..]);
      } else {
        var n := RunLength(s);
        TokensWellFormed(s[n..]);
        assert Tokens(s) == [s[..n]] + Tokens(s[n..]);
      }
    }
  }

  /** A leading stretch of delimiters yields no token. */
  lemma {:induction false} TokensSkipDelimiters(s: string, p: nat)
    requires p <= |s|
    requires forall i :: 0 <= i < p ==> IsDelimiter(s[i])
    ensures Tokens(s) == Tokens(s[p..])
    decreases p
  {
    if p > 0 {
      TokensSkipDelimiters(s[1..], p - 1);
      assert s[1..][p - 1..] == s[p..];
    }
  }

  /** The run length is the one index that ends the leading run of non-delimiters. */
  lemma RunLengthUnique(s: string, n: nat)
    requires n <= |s|
    requires forall i :: 0 <= i < n ==> !IsDelimiter(s[i])
    requires n < |s| ==> IsDelimiter(s[n])
    ensures RunLength(s) == n
  {
    var m := RunLength(s);
    assert m < |s| ==> IsDelimiter(s[m]);
  }

  /**
    A token that starts at `start` and ends at `end` is the first of the tokens
    of `s[start..]`, and the tokens of `s[end..]` follow it.
  */
  lemma TokenAt(s: string, start: nat, end: nat)
    requires start < |s| && !IsDelimiter(s[start])
    requires start <= end <= |s|
    requires forall i :: start <= i < end ==> !IsDelimiter(s[i])
    requires end < |s| ==> IsDelimiter(s[end])
    ensures Tokens(s[start..]) == [s[start..end]] + Tokens(s[end..])
  {
    var rest := s[start..];
    RunLengthUnique(rest, end - start);
    assert rest[..end - start] == s[start..end];
    assert rest[end - start..] == s[end..];
  }

  /** A non-empty word without delimiters is a single token. */
  lemma TokensOfWord(w: string)
    requires w != [] && DelimiterFree(w)
    ensures Tokens(w) == [w]
  {
    assert !IsDelimiter(w[0]);
    assert RunLength(w) == |w|;
    assert w[..|w|] == w;
    assert Tokens(w[|w|..]) == [];
  }

  lemma {:induction false} RunLengthAppend(a: string, d: char, b: string)
    requires IsDelimiter(d)
    ensures RunLength(a + [d] + b) == RunLength(a)
  {
    var n := RunLength(a);
    var s := a + [d] + b;
    assert forall i :: 0 <= i < n ==> s[i] == a[i];
    assert n < |a| ==> s[n] == a[n];
    assert n == |a| ==> s[n] == d;
  }

  /** A delimiter separates tokens: what lies on either side is tokenized on its own. */
  lemma {:induction false} TokensAtDelimiter(a: string, d: char, b: string)
    requires IsDelimiter(d)
    ensures Tokens(a + [d] + b) == Tokens(a) + Tokens(b)
    decreases |a|
  {
    var s := a + [d] + b;
    if a == [] {
      assert s[1..] == b;
    } else if IsDelimiter(a[0]) {
      assert s[1..] == a[1..] + [d] + b;
      TokensAtDelimiter(a[1..], d, b);
    } else {
      var n := RunLength(a);
      RunLengthAppend(a, d, b);
      assert s[..n] == a[..n];
      assert s[n..] == a[n..] + [d] + b;
      TokensAtDelimiter(a[n..], d, b);
    }
  }

  /**
    A tokenizer over `str`; `currentPosition` is the index of the next character to
    look at, as in the library class. The tokens still to come are
    `Tokens(str[currentPosition..])`.
  */
  class StringTokenizer {
    const str: string
    var currentPosition: nat

    ghost predicate Valid()
      reads this
    {
      currentPosition <= |str|
    }

    /** The tokens `NextToken` will still hand out, in order. */
    ghost function Remaining(): seq<string>
      reads this
      requires Valid()
    {
      Tokens(str[currentPosition..])
    }

    constructor (s: string)
      ensures Valid() && str == s
      ensures Remaining() == Tokens(s)
    {
      str := s;
      currentPosition := 0;
    }

    /** The first index at or after `position` that is not a delimiter (or the end). */
    method SkipDelimiters(position: nat) returns (p: nat)
      requires position <= |str|
      ensures position <= p <= |str|
      ensures forall i :: position <= i < p ==> IsDelimiter(str[i])
      ensures p < |str| ==> !IsDelimiter(str[p])
    {
      p := position;
      while p < |str| && IsDelimiter(str[p])
        invariant position <= p <= |str|
        invariant forall i :: position <= i < p ==> IsDelimiter(str[i])
      {
        p := p + 1;
      }
    }

    /** The first index at or after `position` that is a delimiter (or the end). */
    method ScanToken(position: nat) returns (p: nat)
      requires position <= |str|
      ensures position <= p <= |str|
      ensures forall i :: position <= i < p ==> !IsDelimiter(str[i])
      ensures p < |str| ==> IsDelimiter(str[p])
    {
      p := position;
      while p < |str| && !IsDelimiter(str[p])
        invariant position <= p <= |str|
        invariant forall i :: position <= i < p ==> !IsDelimiter(str[i])
      {
        p := p + 1;
      }
    }

    method HasMoreTokens() returns (more: bool)
      requires Valid()
      ensures more <==> Remaining() != []
    {
      var p := SkipDelimiters(currentPosition);
      TokensSkipDelimiters(str[currentPosition..], p - currentPosition);
      assert str[currentPosition..][p - currentPosition..] == str[p..];
      more := p < |str|;
    }

    method NextToken() returns (token: string)
      requires Valid() && Remaining() != []
      modifies this
      ensures Valid()
      ensures token == old(Remaining())[0]
      ensures Remaining() == old(Remaining())[1..]
    {
      var start := SkipDelimiters(currentPosition);
      TokensSkipDelimiters(str[currentPosition..], start - currentPosition);
      assert str[currentPosition..][start - currentPosition..] == str[start..];
      var end := ScanToken(start);
      TokenAt(str, start, end);
      currentPosition := end;
      token := str[start..end];
    }
  }
}
