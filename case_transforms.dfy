/**
 * The nine case transforms of src/extension.ts (lines 43-84 and the
 * `lowerCase` lambda of the registry), each built like the source from
 * regular-expression replacements, `split`, `map` and `join`.
 */
module CaseTransforms {
  import opened Chars

  // ---------------------------------------------------------------------
  // The string primitives the transforms are built from
  // ---------------------------------------------------------------------

  /** `s.replace(/[p]+/g, r)`: every maximal run of characters satisfying `p`
      is replaced by `r` (the global regex match is leftmost and greedy). */
  function ReplaceRuns(s: string, p: char -> bool, r: string): string
    decreases |s|
  {
    if s == [] then []
    else if p(s[0]) then r + ReplaceRuns(s[RunLength(s, p)..], p, r)
    else [s[0]] + ReplaceRuns(s[1..], p, r)
  }

  /** `s.split(sep)` for a one-character separator: always at least one piece,
      empty pieces where separators are adjacent or at either end. */
  function Split(s: string, sep: char): (ws: seq<string>)
    ensures |ws| >= 1
  {
    if s == [] then [[]]
    else if s[0] == sep then [[]] + Split(s[1..], sep)
    else
      var rest := Split(s[1..], sep);
      [[s[0]] + rest[0]] + rest[1..]
  }

  /** `word.charAt(0).toUpperCase() + word.slice(1).toLowerCase()`. */
  function Capitalize(w: string): string
  {
    if w == [] then [] else [UpperChar(w[0])] + ToLower(w[1..])
  }

  /** `words.map(Capitalize).join('')`. */
  function JoinCapitalized(ws: seq<string>): string
  {
    if ws == [] then [] else Capitalize(ws[0]) + JoinCapitalized(ws[1..])
  }

  /** `s.replace(/([a-z])([A-Z])/g, '$1' + sep + '$2')`: matches do not
      overlap, so the scan resumes after the upper-case letter. */
  function SplitCamel(s: string, sep: char): string
  {
    if |s| >= 2 && IsLower(s[0]) && IsUpper(s[1]) then [s[0], sep, s[1]] + SplitCamel(s[2..], sep)
    else if s == [] then []
    else [s[0]] + SplitCamel(s[1..], sep)
  }

  predicate IsPascalSeparator(c: char) { c == '-' || c == '_' || c == ' ' }

  predicate IsWordPart(c: char) { !IsPascalSeparator(c) }

  predicate IsBlank(c: char) { c == ' ' }

  predicate IsDashOrSpace(c: char) { c == '-' || IsSpace(c) }

  predicate IsUnderscoreOrSpace(c: char) { c == '_' || IsSpace(c) }

  predicate IsDashUnderscoreOrSpace(c: char) { c == '-' || c == '_' || IsSpace(c) }

  // ---------------------------------------------------------------------
  // The transforms
  // ---------------------------------------------------------------------

  /** toUpperCaseFirst: `str.charAt(0).toUpperCase() + str.slice(1)`. */
  function ToUpperCaseFirst(s: string): (r: string)
    ensures |r| == |s|
    ensures s != [] ==> r[0] == UpperChar(s[0])
    ensures forall i :: 0 < i < |s| ==> r[i] == s[i]
  {
    if s == [] then [] else [UpperChar(s[0])] + s[1..]
  }

  /** toPascalCase: only `-`, `_` and the space character separate words. */
  function ToPascalCase(s: string): string
  {
    JoinCapitalized(Split(ReplaceRuns(s, IsPascalSeparator, " "), ' '))
  }

  /** toCamelCase: the Pascal form with its first character lower-cased. */
  function ToCamelCase(s: string): string
  {
    var pascal := ToPascalCase(s);
    if pascal == [] then [] else [LowerChar(pascal[0])] + pascal[1..]
  }

  function ToSnakeCase(s: string): string
  {
    ToLower(ReplaceRuns(SplitCamel(s, '_'), IsDashOrSpace, "_"))
  }

  function ToKebabCase(s: string): string
  {
    ToLower(ReplaceRuns(SplitCamel(s, '-'), IsUnderscoreOrSpace, "-"))
  }

  function ToScreamingSnakeCase(s: string): string
  {
    ToUpper(ToSnakeCase(s))
  }

  /** The registry's `lowerCase` entry, `(s) => s.toLowerCase()`. */
  function ToLowerCase(s: string): string
  {
    ToLower(s)
  }

  /** toUpperCaseAll, and the templateUtils registry's `upperCaseAll` lambda. */
  function ToUpperCaseAll(s: string): string
  {
    ToUpper(ReplaceRuns(s, IsDashUnderscoreOrSpace, ""))
  }

  /** toLowerCaseAll, and the templateUtils registry's `lowerCaseAll` lambda. */
  function ToLowerCaseAll(s: string): string
  {
    ToLower(ReplaceRuns(s, IsDashUnderscoreOrSpace, ""))
  }

  // ---------------------------------------------------------------------
  // An independent definition of Pascal case: one left-to-right pass that
  // drops separators and upper-cases the first letter of each word.
  // ---------------------------------------------------------------------

  function WordScan(s: string, sep: char -> bool, atWordStart: bool): string
  {
    if s == [] then []
    else if sep(s[0]) then WordScan(s[1..], sep, true)
    else [if atWordStart then UpperChar(s[0]) else LowerChar(s[0])] + WordScan(s[1..], sep, false)
  }

  lemma {:induction false} SplitJoinScan(t: string)
    ensures JoinCapitalized(Split(t, ' ')) == WordScan(t, IsBlank, true)
    ensures ToLower(Split(t, ' ')[0]) + JoinCapitalized(Split(t, ' ')[1..]) == WordScan(t, IsBlank, false)
  {
    if t != [] {
      SplitJoinScan(t[1..]);
      if t[0] == ' ' {
        assert Split(t, ' ')[1..] == Split(t[1..], ' ');
      } else {
        SplitJoinWord(t);
      }
    }
  }

  /** The step of `SplitJoinScan` for a word character. */
  lemma SplitJoinWord(t: string)
    requires t != [] && t[0] != ' '
    requires ToLower(Split(t[1..], ' ')[0]) + JoinCapitalized(Split(t[1..], ' ')[1..]) == WordScan(t[1..], IsBlank, false)
    ensures JoinCapitalized(Split(t, ' ')) == WordScan(t, IsBlank, true)
    ensures ToLower(Split(t, ' ')[0]) + JoinCapitalized(Split(t, ' ')[1..]) == WordScan(t, IsBlank, false)
  {
    var rest := Split(t[1..], ' ');
    var ws := [[t[0]] + rest[0]] + rest[1..];
    assert Split(t, ' ') == ws;
    assert ws[0] == [t[0]] + rest[0] && ws[1..] == rest[1..];
    JoinStep(t[0], rest[0], rest[1..], WordScan(t[1..], IsBlank, false));
  }

  /** Capitalising and joining words whose first word starts with `c`. */
  lemma JoinStep(c: char, r0: string, rest1: seq<string>, scan: string)
    requires ToLower(r0) + JoinCapitalized(rest1) == scan
    ensures JoinCapitalized([[c] + r0] + rest1) == [UpperChar(c)] + scan
    ensures ToLower([c] + r0) + JoinCapitalized(rest1) == [LowerChar(c)] + scan
  {
    var w := [c] + r0;
    assert w[0] == c && w[1..] == r0;
    assert ([w] + rest1)[0] == w && ([w] + rest1)[1..] == rest1;
    LowerCons(c, r0);
    var tail := JoinCapitalized(rest1);
    AppendAssoc([UpperChar(c)], ToLower(r0), tail);
    AppendAssoc([LowerChar(c)], ToLower(r0), tail);
  }

  lemma LowerCons(c: char, r: string)
    ensures ToLower([c] + r) == [LowerChar(c)] + ToLower(r)
  {
    assert ToLower([c] + r) == [LowerChar(c)] + ToLower(r);
  }

  lemma {:induction false} ScanSkipsRun(s: string, sep: char -> bool, k: nat)
    requires k <= |s|
    requires forall i :: 0 <= i < k ==> sep(s[i])
    ensures WordScan(s, sep, true) == WordScan(s[k..], sep, true)
  {
    if k > 0 {
      ScanSkipsRun(s[1..], sep, k - 1);
      assert s[1..][k - 1..] == s[k..];
    }
  }

  lemma {:induction false} ReplaceRunsScan(s: string, atWordStart: bool)
    ensures WordScan(ReplaceRuns(s, IsPascalSeparator, " "), IsBlank, atWordStart)
         == WordScan(s, IsPascalSeparator, atWordStart)
    decreases |s|
  {
    if s == [] {
    } else if IsPascalSeparator(s[0]) {
      var k := RunLength(s, IsPascalSeparator);
      var rest := ReplaceRuns(s[k..], IsPascalSeparator, " ");
      assert ReplaceRuns(s, IsPascalSeparator, " ") == " " + rest;
      assert (" " + rest)[1..] == rest;
      ReplaceRunsScan(s[k..], true);
      ScanSkipsRun(s[1..], IsPascalSeparator, k - 1);
      assert s[1..][k - 1..] == s[k..];
    } else {
      var rest := ReplaceRuns(s[1..], IsPascalSeparator, " ");
      assert ReplaceRuns(s, IsPascalSeparator, " ") == [s[0]] + rest;
      assert ([s[0]] + rest)[1..] == rest;
      ReplaceRunsScan(s[1..], false);
    }
  }

  /** toPascalCase drops every `-`, `_` and space, upper-cases the first
      character of each word and lower-cases the rest of it. */
  lemma PascalCaseIsWordScan(s: string)
    ensures ToPascalCase(s) == WordScan(s, IsPascalSeparator, true)
  {
    SplitJoinScan(ReplaceRuns(s, IsPascalSeparator, " "));
    ReplaceRunsScan(s, true);
  }

  lemma {:induction false} WordScanAvoidsSeparators(s: string, atWordStart: bool)
    ensures Avoids(WordScan(s, IsPascalSeparator, atWordStart), IsPascalSeparator)
    ensures |WordScan(s, IsPascalSeparator, atWordStart)| == |Filter(s, IsWordPart)|
  {
    if s != [] {
      WordScanAvoidsSeparators(s[1..], true);
      WordScanAvoidsSeparators(s[1..], false);
    }
  }

  /** The Pascal form contains no `-`, `_` or space, and keeps one character
      for every character of the input that is not one of those. */
  lemma PascalCaseAvoidsSeparators(s: string)
    ensures Avoids(ToPascalCase(s), IsPascalSeparator)
    ensures |ToPascalCase(s)| == |Filter(s, IsWordPart)|
  {
    PascalCaseIsWordScan(s);
    WordScanAvoidsSeparators(s, true);
  }

  /** toCamelCase agrees with toPascalCase except that its first character is
      lower-cased. */
  lemma CamelCaseIsPascalLowerFirst(s: string)
    ensures |ToCamelCase(s)| == |ToPascalCase(s)|
    ensures ToPascalCase(s) != [] ==> ToCamelCase(s)[0] == LowerChar(ToPascalCase(s)[0])
    ensures forall i :: 0 < i < |ToPascalCase(s)| ==> ToCamelCase(s)[i] == ToPascalCase(s)[i]
    ensures Avoids(ToCamelCase(s), IsPascalSeparator)
  {
    PascalCaseAvoidsSeparators(s);
    var p := ToPascalCase(s);
    if p != [] {
      assert !IsPascalSeparator(p[0]);
    }
  }

  // ---------------------------------------------------------------------
  // Replacing runs, and the transforms built on it
  // ---------------------------------------------------------------------

  /** A replacement that contains no character of the class leaves no
      character of the class behind. */
  lemma {:induction false} ReplaceRunsAvoids(s: string, p: char -> bool, r: string)
    requires Avoids(r, p)
    ensures Avoids(ReplaceRuns(s, p, r), p)
    decreases |s|
  {
    if s == [] {
    } else if p(s[0]) {
      ReplaceRunsAvoids(s[RunLength(s, p)..], p, r);
    } else {
      ReplaceRunsAvoids(s[1..], p, r);
    }
  }

  lemma {:induction false} FilterSkipsRun(s: string, keep: char -> bool, k: nat)
    requires k <= |s|
    requires forall i :: 0 <= i < k ==> !keep(s[i])
    ensures Filter(s, keep) == Filter(s[k..], keep)
  {
    if k > 0 {
      FilterSkipsRun(s[1..], keep, k - 1);
      assert s[1..][k - 1..] == s[k..];
    }
  }

  predicate IsKeptByAll(c: char) { !IsDashUnderscoreOrSpace(c) }

  /** Replacing the runs by the empty string removes exactly the characters of
      the class, one by one. */
  lemma {:induction false} ReplaceRunsByNothingIsFilter(s: string)
    ensures ReplaceRuns(s, IsDashUnderscoreOrSpace, "") == Filter(s, IsKeptByAll)
    decreases |s|
  {
    if s == [] {
    } else if IsDashUnderscoreOrSpace(s[0]) {
      var k := RunLength(s, IsDashUnderscoreOrSpace);
      ReplaceRunsByNothingIsFilter(s[k..]);
      FilterSkipsRun(s, IsKeptByAll, k);
    } else {
      ReplaceRunsByNothingIsFilter(s[1..]);
    }
  }

  lemma ToUpperAvoids(s: string, p: char -> bool)
    requires Avoids(s, p)
    requires forall c :: !p(c) ==> !p(UpperChar(c))
    ensures Avoids(ToUpper(s), p)
  {
    forall i | 0 <= i < |s| ensures !p(ToUpper(s)[i]) {
      assert !p(s[i]);
    }
  }

  lemma ToLowerAvoids(s: string, p: char -> bool)
    requires Avoids(s, p)
    requires forall c :: !p(c) ==> !p(LowerChar(c))
    ensures Avoids(ToLower(s), p)
  {
    forall i | 0 <= i < |s| ensures !p(ToLower(s)[i]) {
      assert !p(s[i]);
    }
  }

  /** toUpperCaseAll and toLowerCaseAll delete every `-`, `_` and whitespace
      character and change the case of what is left; neither result contains
      any of the deleted characters. */
  lemma UpperLowerCaseAllStrip(s: string)
    ensures ToUpperCaseAll(s) == ToUpper(Filter(s, IsKeptByAll))
    ensures ToLowerCaseAll(s) == ToLower(Filter(s, IsKeptByAll))
    ensures Avoids(ToUpperCaseAll(s), IsDashUnderscoreOrSpace)
    ensures Avoids(ToLowerCaseAll(s), IsDashUnderscoreOrSpace)
    ensures Avoids(ToUpperCaseAll(s), IsLower) && Avoids(ToLowerCaseAll(s), IsUpper)
  {
    ReplaceRunsByNothingIsFilter(s);
    var f := Filter(s, IsKeptByAll);
    assert Avoids(f, IsDashUnderscoreOrSpace);
    ToUpperAvoids(f, IsDashUnderscoreOrSpace);
    ToLowerAvoids(f, IsDashUnderscoreOrSpace);
  }

  /** No lower-case letter is directly followed by an upper-case one. */
  predicate NoCamelBoundary(r: string)
  {
    forall i :: 0 <= i < |r| - 1 ==> !(IsLower(r[i]) && IsUpper(r[i + 1]))
  }

  /** After SplitCamel no lower-case letter is directly followed by an
      upper-case one. */
  lemma {:induction false} SplitCamelLeavesNoBoundary(s: string, sep: char)
    requires !IsLower(sep) && !IsUpper(sep)
    ensures s != [] ==> SplitCamel(s, sep) != [] && SplitCamel(s, sep)[0] == s[0]
    ensures NoCamelBoundary(SplitCamel(s, sep))
  {
    if |s| >= 2 && IsLower(s[0]) && IsUpper(s[1]) {
      SplitCamelLeavesNoBoundary(s[2..], sep);
      var rest := SplitCamel(s[2..], sep);
      var r := [s[0], sep, s[1]] + rest;
      assert SplitCamel(s, sep) == r;
      forall i | 0 <= i < |r| - 1 ensures !(IsLower(r[i]) && IsUpper(r[i + 1])) {
        if i >= 3 {
          assert r[i] == rest[i - 3] && r[i + 1] == rest[i - 2];
        } else if i == 2 {
          assert r[2] == s[1];
        }
      }
    } else if s != [] {
      SplitCamelLeavesNoBoundary(s[1..], sep);
      var rest := SplitCamel(s[1..], sep);
      var r := [s[0]] + rest;
      assert SplitCamel(s, sep) == r;
      forall i | 0 <= i < |r| - 1 ensures !(IsLower(r[i]) && IsUpper(r[i + 1])) {
        if i >= 1 {
          assert r[i] == rest[i - 1] && r[i + 1] == rest[i];
        } else {
          assert r[1] == s[1];
        }
      }
    }
  }

  /** SplitCamel only inserts separators: deleting them gives the input back,
      with its own separators deleted too. */
  lemma {:induction false} SplitCamelOnlyInserts(s: string, sep: char)
    requires !IsLower(sep) && !IsUpper(sep)
    ensures Without(SplitCamel(s, sep), sep) == Without(s, sep)
  {
    if |s| >= 2 && IsLower(s[0]) && IsUpper(s[1]) {
      SplitCamelOnlyInserts(s[2..], sep);
      var rest := SplitCamel(s[2..], sep);
      assert SplitCamel(s, sep) == [s[0]] + ([sep] + ([s[1]] + rest));
      assert s == [s[0]] + ([s[1]] + s[2..]);
      WithoutCons(s[0], [sep] + ([s[1]] + rest), sep);
      WithoutCons(sep, [s[1]] + rest, sep);
      WithoutCons(s[1], rest, sep);
      WithoutCons(s[0], [s[1]] + s[2..], sep);
      WithoutCons(s[1], s[2..], sep);
    } else if s != [] {
      SplitCamelOnlyInserts(s[1..], sep);
      var rest := SplitCamel(s[1..], sep);
      assert SplitCamel(s, sep) == [s[0]] + rest;
      assert s == [s[0]] + s[1..];
      WithoutCons(s[0], rest, sep);
      WithoutCons(s[0], s[1..], sep);
    }
  }

  /** An independent definition of SplitCamel: every character is copied,
      and `sep` is written right after each lower-case letter whose successor
      is an upper-case letter, and nowhere else. */
  function SepAfterBoundaries(s: string, sep: char): string
  {
    if s == [] then []
    else [s[0]] + (if |s| >= 2 && IsLower(s[0]) && IsUpper(s[1]) then [sep] else []) + SepAfterBoundaries(s[1..], sep)
  }

  /** SplitCamel puts a separator at every lower-to-upper boundary and nowhere
      else: an upper-case letter is never lower-case, so no two regex matches
      compete for one character. */
  lemma {:induction false} SplitCamelAtBoundaries(s: string, sep: char)
    ensures SplitCamel(s, sep) == SepAfterBoundaries(s, sep)
  {
    if |s| >= 2 && IsLower(s[0]) && IsUpper(s[1]) {
      SplitCamelAtBoundaries(s[2..], sep);
      assert s[1..][1..] == s[2..];
      assert SepAfterBoundaries(s[1..], sep) == [s[1]] + SepAfterBoundaries(s[2..], sep);
    } else if s != [] {
      SplitCamelAtBoundaries(s[1..], sep);
    }
  }

  /** Inserting a separator outside a character class keeps the class out. */
  lemma {:induction false} SepAfterBoundariesAvoids(s: string, sep: char, p: char -> bool)
    requires Avoids(s, p) && !p(sep)
    ensures Avoids(SepAfterBoundaries(s, sep), p)
  {
    if s != [] {
      SepAfterBoundariesAvoids(s[1..], sep, p);
      var mid: string := if |s| >= 2 && IsLower(s[0]) && IsUpper(s[1]) then [sep] else [];
      var r := SepAfterBoundaries(s[1..], sep);
      forall i | 0 <= i < |[s[0]] + mid + r| ensures !p(([s[0]] + mid + r)[i]) {
        if i == 0 {
        } else if i <= |mid| {
          assert ([s[0]] + mid + r)[i] == sep;
        } else {
          assert ([s[0]] + mid + r)[i] == r[i - 1 - |mid|];
        }
      }
    }
  }

  /** On a name without `-` and whitespace toSnakeCase only puts `_` at the
      lower-to-upper boundaries and lower-cases; on a name without `_` and
      whitespace toKebabCase does the same with `-`. */
  lemma SnakeKebabAtBoundaries(s: string)
    ensures Avoids(s, IsDashOrSpace) ==> ToSnakeCase(s) == ToLower(SepAfterBoundaries(s, '_'))
    ensures Avoids(s, IsUnderscoreOrSpace) ==> ToKebabCase(s) == ToLower(SepAfterBoundaries(s, '-'))
  {
    SplitCamelAtBoundaries(s, '_');
    SplitCamelAtBoundaries(s, '-');
    if Avoids(s, IsDashOrSpace) {
      SepAfterBoundariesAvoids(s, '_', IsDashOrSpace);
      ReplaceRunsNone(SepAfterBoundaries(s, '_'), IsDashOrSpace, "_");
    }
    if Avoids(s, IsUnderscoreOrSpace) {
      SepAfterBoundariesAvoids(s, '-', IsUnderscoreOrSpace);
      ReplaceRunsNone(SepAfterBoundaries(s, '-'), IsUnderscoreOrSpace, "-");
    }
  }

  // ---------------------------------------------------------------------
  // An independent definition of the run replacement in toSnakeCase and
  // toKebabCase: one left-to-right pass.
  // ---------------------------------------------------------------------

  /** Writes `sep` for the first character of each run of `p` (unless the
      run began before `s`, `inRun`) and skips the rest of the run; every
      other character is copied. */
  function RunScan(s: string, p: char -> bool, sep: char, inRun: bool): string
  {
    if s == [] then []
    else if p(s[0]) then (if inRun then [] else [sep]) + RunScan(s[1..], p, sep, true)
    else [s[0]] + RunScan(s[1..], p, sep, false)
  }

  /** Inside a run the scan writes nothing until the run ends. */
  lemma {:induction false} RunScanSkipsRun(s: string, p: char -> bool, sep: char, k: nat)
    requires k <= |s|
    requires forall i :: 0 <= i < k ==> p(s[i])
    ensures RunScan(s, p, sep, true) == RunScan(s[k..], p, sep, true)
  {
    if k > 0 {
      RunScanSkipsRun(s[1..], p, sep, k - 1);
      assert s[1..][k - 1..] == s[k..];
    }
  }

  /** `s.replace(/[p]+/g, sep)` is the one-pass scan: each maximal run
      becomes exactly one `sep`. */
  lemma {:induction false} ReplaceRunsIsRunScan(s: string, p: char -> bool, sep: char)
    ensures ReplaceRuns(s, p, [sep]) == RunScan(s, p, sep, false)
    decreases |s|
  {
    if s != [] {
      if p(s[0]) {
        var k := RunLength(s, p);
        ReplaceRunsRunStep(s, p, [sep]);
        ReplaceRunsIsRunScan(s[k..], p, sep);
        RunScanSkipsRun(s[1..], p, sep, k - 1);
        assert s[1..][k - 1..] == s[k..];
        assert RunScan(s[k..], p, sep, true) == RunScan(s[k..], p, sep, false);
      } else {
        ReplaceRunsCharStep(s, p, [sep]);
        ReplaceRunsIsRunScan(s[1..], p, sep);
      }
    }
  }

  /** toSnakeCase puts `_` at the lower-to-upper boundaries, turns every
      maximal run of `-` and whitespace into one `_`, and lower-cases;
      toKebabCase does the same with `-` and runs of `_` and whitespace. */
  lemma SnakeKebabIsRunScan(s: string)
    ensures ToSnakeCase(s) == ToLower(RunScan(SepAfterBoundaries(s, '_'), IsDashOrSpace, '_', false))
    ensures ToKebabCase(s) == ToLower(RunScan(SepAfterBoundaries(s, '-'), IsUnderscoreOrSpace, '-', false))
  {
    SplitCamelAtBoundaries(s, '_');
    SplitCamelAtBoundaries(s, '-');
    ReplaceRunsIsRunScan(SepAfterBoundaries(s, '_'), IsDashOrSpace, '_');
    ReplaceRunsIsRunScan(SepAfterBoundaries(s, '-'), IsUnderscoreOrSpace, '-');
  }

  lemma WithoutCons(c: char, rest: string, sep: char)
    ensures Without([c] + rest, sep) == (if c == sep then [] else [c]) + Without(rest, sep)
  {
    assert ([c] + rest)[1..] == rest;
  }

  /** `s` with every occurrence of `c` deleted. */
  function Without(s: string, c: char): string
  {
    if s == [] then [] else (if s[0] == c then [] else [s[0]]) + Without(s[1..], c)
  }

  predicate IsSnakeForbidden(c: char) { IsDashOrSpace(c) || IsUpper(c) }

  predicate IsKebabForbidden(c: char) { IsUnderscoreOrSpace(c) || IsUpper(c) }

  /** toSnakeCase leaves no `-`, no whitespace and no upper-case letter;
      toKebabCase leaves no `_`, no whitespace and no upper-case letter. */
  lemma SnakeKebabAlphabet(s: string)
    ensures Avoids(ToSnakeCase(s), IsSnakeForbidden)
    ensures Avoids(ToKebabCase(s), IsKebabForbidden)
  {
    var a := ReplaceRuns(SplitCamel(s, '_'), IsDashOrSpace, "_");
    ReplaceRunsAvoids(SplitCamel(s, '_'), IsDashOrSpace, "_");
    forall i | 0 <= i < |a| ensures !IsSnakeForbidden(ToLower(a)[i]) {
      assert !IsDashOrSpace(a[i]);
    }
    var b := ReplaceRuns(SplitCamel(s, '-'), IsUnderscoreOrSpace, "-");
    ReplaceRunsAvoids(SplitCamel(s, '-'), IsUnderscoreOrSpace, "-");
    forall i | 0 <= i < |b| ensures !IsKebabForbidden(ToLower(b)[i]) {
      assert !IsUnderscoreOrSpace(b[i]);
    }
  }

  /** toScreamingSnakeCase is toSnakeCase upper-cased, and lower-casing it gives
      toSnakeCase back; it has no lower-case letter, `-` or whitespace. */
  lemma ScreamingSnakeInvertsToSnake(s: string)
    ensures ToLower(ToScreamingSnakeCase(s)) == ToSnakeCase(s)
    ensures Avoids(ToScreamingSnakeCase(s), IsLower)
    ensures Avoids(ToScreamingSnakeCase(s), IsDashOrSpace)
  {
    SnakeKebabAlphabet(s);
    var snake := ToSnakeCase(s);
    assert forall i :: 0 <= i < |snake| ==> !IsUpper(snake[i]) && !IsDashOrSpace(snake[i]);
  }

  /** lowerCase lower-cases every ASCII letter and keeps everything else. */
  lemma LowerCaseKeepsShape(s: string)
    ensures |ToLowerCase(s)| == |s|
    ensures Avoids(ToLowerCase(s), IsUpper)
    ensures forall i :: 0 <= i < |s| && !IsUpper(s[i]) ==> ToLowerCase(s)[i] == s[i]
    ensures forall i :: 0 <= i < |s| && IsUpper(s[i]) ==> IsLower(ToLowerCase(s)[i]) && ToLowerCase(s)[i] as int == s[i] as int + 32
    ensures ToUpper(ToLowerCase(s)) == ToUpper(s)
    ensures ToLowerCase(ToLowerCase(s)) == ToLowerCase(s)
  {
  }

  // ---------------------------------------------------------------------
  // How the transforms distribute over concatenation
  // ---------------------------------------------------------------------

  /** Whether WordScan is at a word start after scanning `a`. */
  function ScanFlag(a: string, sep: char -> bool, atWordStart: bool): bool
  {
    if a == [] then atWordStart else sep(a[|a| - 1])
  }

  lemma {:induction false} WordScanAppend(a: string, b: string, sep: char -> bool, atWordStart: bool)
    ensures WordScan(a + b, sep, atWordStart)
         == WordScan(a, sep, atWordStart) + WordScan(b, sep, ScanFlag(a, sep, atWordStart))
  {
    if a == [] {
      assert a + b == b;
    } else {
      var c := a[0];
      WordScanAppend(a[1..], b, sep, sep(c));
      assert a + b == [c] + (a[1..] + b);
      assert a == [c] + a[1..];
      WordScanCons(c, a[1..] + b, sep, atWordStart);
      WordScanCons(c, a[1..], sep, atWordStart);
      AppendAssoc(ScanHead(c, sep, atWordStart), WordScan(a[1..], sep, sep(c)),
                  WordScan(b, sep, ScanFlag(a[1..], sep, sep(c))));
      if a[1..] != [] {
        assert a[1..][|a[1..]| - 1] == a[|a| - 1];
      }
    }
  }

  /** What the scan emits for one character. */
  function ScanHead(c: char, sep: char -> bool, atWordStart: bool): string
  {
    if sep(c) then [] else [if atWordStart then UpperChar(c) else LowerChar(c)]
  }

  lemma WordScanCons(c: char, rest: string, sep: char -> bool, atWordStart: bool)
    ensures WordScan([c] + rest, sep, atWordStart) == ScanHead(c, sep, atWordStart) + WordScan(rest, sep, sep(c))
  {
    assert ([c] + rest)[1..] == rest;
  }

  /** Replacing runs distributes over a concatenation that does not cut a run
      in two. */
  lemma {:induction false} ReplaceRunsAppend(a: string, b: string, p: char -> bool, r: string)
    requires a == [] || b == [] || !p(a[|a| - 1]) || !p(b[0])
    ensures ReplaceRuns(a + b, p, r) == ReplaceRuns(a, p, r) + ReplaceRuns(b, p, r)
    decreases |a|
  {
    if a == [] {
      assert a + b == b;
    } else if p(a[0]) {
      ReplaceRunsAppendRun(a, b, p, r);
    } else {
      assert a[1..] == [] || b == [] || !p(a[1..][|a[1..]| - 1]) || !p(b[0]) by {
        if a[1..] != [] {
          assert a[1..][|a[1..]| - 1] == a[|a| - 1];
        }
      }
      ReplaceRunsAppend(a[1..], b, p, r);
      var ab := a + b;
      assert ab[0] == a[0] && ab[1..] == a[1..] + b;
      ReplaceRunsCharStep(ab, p, r);
      ReplaceRunsCharStep(a, p, r);
      AppendAssoc([a[0]], ReplaceRuns(a[1..], p, r), ReplaceRuns(b, p, r));
    }
  }

  lemma {:induction false} ReplaceRunsAppendRun(a: string, b: string, p: char -> bool, r: string)
    requires a != [] && p(a[0])
    requires b == [] || !p(a[|a| - 1]) || !p(b[0])
    ensures ReplaceRuns(a + b, p, r) == ReplaceRuns(a, p, r) + ReplaceRuns(b, p, r)
    decreases |a|, 0
  {
    var k := RunLength(a, p);
    var ab := a + b;
    assert ab[0] == a[0];
    ReplaceRunsRunStep(ab, p, r);
    ReplaceRunsRunStep(a, p, r);
    if k == |a| {
      RunLengthAppendWhole(a, b, p);
      assert ab[k..] == b;
      assert a[k..] == [];
      assert r + [] == r;
    } else {
      RunLengthAppendInside(a, b, p);
      assert ab[k..] == a[k..] + b;
      assert a[k..][|a[k..]| - 1] == a[|a| - 1];
      ReplaceRunsAppend(a[k..], b, p, r);
      AppendAssoc(r, ReplaceRuns(a[k..], p, r), ReplaceRuns(b, p, r));
    }
  }

  /** A string that starts outside the class keeps its first character. */
  lemma ReplaceRunsCharStep(s: string, p: char -> bool, r: string)
    requires s != [] && !p(s[0])
    ensures ReplaceRuns(s, p, r) == [s[0]] + ReplaceRuns(s[1..], p, r)
  {
  }

  /** A string that starts with a run: the run becomes `r`. */
  lemma ReplaceRunsRunStep(s: string, p: char -> bool, r: string)
    requires s != [] && p(s[0])
    ensures ReplaceRuns(s, p, r) == r + ReplaceRuns(s[RunLength(s, p)..], p, r)
  {
  }

  /** A string without upper-case letters has no boundary for SplitCamel. */
  lemma {:induction false} SplitCamelWithoutUpper(s: string, sep: char)
    requires Avoids(s, IsUpper)
    ensures SplitCamel(s, sep) == s
  {
    if s != [] {
      SplitCamelWithoutUpper(s[1..], sep);
    }
  }

  /** A string with no character of the class is left as it is. */
  lemma {:induction false} ReplaceRunsNone(s: string, p: char -> bool, r: string)
    requires Avoids(s, p)
    ensures ReplaceRuns(s, p, r) == s
  {
    if s != [] {
      ReplaceRunsNone(s[1..], p, r);
    }
  }

  /** A string made of one run of the class becomes the replacement. */
  lemma ReplaceRunsWhole(s: string, p: char -> bool, r: string)
    requires s != [] && forall i :: 0 <= i < |s| ==> p(s[i])
    ensures ReplaceRuns(s, p, r) == r
  {
    assert RunLength(s, p) == |s|;
    assert s[|s|..] == [];
  }
}
