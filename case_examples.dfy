/**
 * The fixed examples of src/test/extension.test.ts:28-54, evaluated on the
 * model of the case transforms, one word at a time.
 */
module CaseExamples {
  import opened Chars
  import opened CaseTransforms

  lemma PascalMy()
    ensures WordScan("my", IsPascalSeparator, true) == "My"
  {
  }

  lemma PascalSuper()
    ensures WordScan(" super", IsPascalSeparator, false) == "Super"
  {
  }

  lemma PascalName()
    ensures WordScan("-name", IsPascalSeparator, false) == "Name"
  {
  }

  /** A string without upper-case letters is its own lower-case form. */
  lemma LowerFixed(w: string)
    requires Avoids(w, IsUpper)
    ensures ToLower(w) == w
  {
    assert forall i :: 0 <= i < |w| ==> ToLower(w)[i] == w[i];
  }

  /** The words and separators of the example, replaced run by run. */
  lemma RunsPieces(p: char -> bool, r: string)
    requires p(' ') && p('-')
    requires !p('m') && !p('y') && !p('s') && !p('u') && !p('p') && !p('e') && !p('r') && !p('n') && !p('a')
    ensures ReplaceRuns("my", p, r) == "my"
    ensures ReplaceRuns(" ", p, r) == r
    ensures ReplaceRuns("super", p, r) == "super"
    ensures ReplaceRuns("-", p, r) == r
    ensures ReplaceRuns("name", p, r) == "name"
  {
    ReplaceRunsNone("my", p, r);
    ReplaceRunsNone("super", p, r);
    ReplaceRunsNone("name", p, r);
    ReplaceRunsWhole(" ", p, r);
    ReplaceRunsWhole("-", p, r);
  }

  lemma PascalWords(s: string)
    requires s == "my super-name"
    ensures s == "my" + (" super" + "-name")
  {
  }

  lemma Words(s: string)
    requires s == "my super-name"
    ensures s == "my" + (" " + ("super" + ("-" + "name")))
  {
  }

  lemma NoUpper(s: string)
    requires s == "my super-name"
    ensures Avoids(s, IsUpper)
  {
  }

  lemma ReplaceRunsOnWords(s: string, p: char -> bool, r: string)
    requires s == "my super-name"
    requires p(' ') && p('-')
    requires !p('m') && !p('y') && !p('s') && !p('u') && !p('p') && !p('e') && !p('r') && !p('n') && !p('a')
    ensures ReplaceRuns(s, p, r) == "my" + r + "super" + r + "name"
  {
    calc {
      ReplaceRuns(s, p, r);
    == { Words(s); }
      ReplaceRuns("my" + (" " + ("super" + ("-" + "name"))), p, r);
    == { ReplaceRunsAppend("my", " " + ("super" + ("-" + "name")), p, r); }
      ReplaceRuns("my", p, r) + ReplaceRuns(" " + ("super" + ("-" + "name")), p, r);
    == { ReplaceRunsAppend(" ", "super" + ("-" + "name"), p, r); }
      ReplaceRuns("my", p, r) + (ReplaceRuns(" ", p, r) + ReplaceRuns("super" + ("-" + "name"), p, r));
    == { ReplaceRunsAppend("super", "-" + "name", p, r); }
      ReplaceRuns("my", p, r) + (ReplaceRuns(" ", p, r)
        + (ReplaceRuns("super", p, r) + ReplaceRuns("-" + "name", p, r)));
    == { ReplaceRunsAppend("-", "name", p, r); }
      ReplaceRuns("my", p, r) + (ReplaceRuns(" ", p, r)
        + (ReplaceRuns("super", p, r) + (ReplaceRuns("-", p, r) + ReplaceRuns("name", p, r))));
    == { RunsPieces(p, r); }
      "my" + (r + ("super" + (r + "name")));
    }
  }

  lemma SnakeExample(s: string)
    requires s == "my super-name"
    ensures ToSnakeCase(s) == "my_super_name"
  {
    NoUpper(s);
    SplitCamelWithoutUpper(s, '_');
    ReplaceRunsOnWords(s, IsDashOrSpace, "_");
    SnakeText("my" + "_" + "super" + "_" + "name");
    LowerFixed("my_super_name");
  }

  lemma SnakeText(w: string)
    requires w == "my" + "_" + "super" + "_" + "name"
    ensures w == "my_super_name" && Avoids(w, IsUpper)
  {
  }

  lemma KebabText(w: string)
    requires w == "my-super-name"
    ensures Avoids(w, IsUpper)
  {
  }

  lemma KebabWords(s: string)
    requires s == "my super-name"
    ensures s == "my" + (" " + "super-name")
  {
  }

  lemma KebabPieces()
    ensures ReplaceRuns("my", IsUnderscoreOrSpace, "-") == "my"
    ensures ReplaceRuns(" ", IsUnderscoreOrSpace, "-") == "-"
    ensures ReplaceRuns("super-name", IsUnderscoreOrSpace, "-") == "super-name"
  {
    ReplaceRunsNone("my", IsUnderscoreOrSpace, "-");
    ReplaceRunsWhole(" ", IsUnderscoreOrSpace, "-");
    ReplaceRunsNone("super-name", IsUnderscoreOrSpace, "-");
  }

  lemma KebabRuns(s: string)
    requires s == "my super-name"
    ensures ReplaceRuns(s, IsUnderscoreOrSpace, "-") == "my-super-name"
  {
    var p := IsUnderscoreOrSpace;
    calc {
      ReplaceRuns(s, p, "-");
    == { KebabWords(s); }
      ReplaceRuns("my" + (" " + "super-name"), p, "-");
    == { ReplaceRunsAppend("my", " " + "super-name", p, "-"); }
      ReplaceRuns("my", p, "-") + ReplaceRuns(" " + "super-name", p, "-");
    == { ReplaceRunsAppend(" ", "super-name", p, "-"); }
      ReplaceRuns("my", p, "-") + (ReplaceRuns(" ", p, "-") + ReplaceRuns("super-name", p, "-"));
    == { KebabPieces(); }
      "my" + ("-" + "super-name");
    }
  }

  lemma KebabExample(s: string)
    requires s == "my super-name"
    ensures ToKebabCase(s) == "my-super-name"
  {
    NoUpper(s);
    SplitCamelWithoutUpper(s, '-');
    KebabRuns(s);
    KebabText("my-super-name");
    LowerFixed("my-super-name");
  }

  lemma StripExample(s: string)
    requires s == "my super-name"
    ensures ReplaceRuns(s, IsDashUnderscoreOrSpace, "") == "mysupername"
  {
    ReplaceRunsOnWords(s, IsDashUnderscoreOrSpace, "");
  }

  /** Pascal case of three pieces whose scans are known. */
  lemma PascalOfPieces(s: string, w1: string, w2: string, w3: string, r1: string, r2: string, r3: string)
    requires s == w1 + (w2 + w3)
    requires WordScan(w1, IsPascalSeparator, true) == r1 && !ScanFlag(w1, IsPascalSeparator, true)
    requires WordScan(w2, IsPascalSeparator, false) == r2 && !ScanFlag(w2, IsPascalSeparator, false)
    requires WordScan(w3, IsPascalSeparator, false) == r3
    ensures ToPascalCase(s) == r1 + (r2 + r3)
  {
    PascalCaseIsWordScan(s);
    WordScanAppend(w1, w2 + w3, IsPascalSeparator, true);
    WordScanAppend(w2, w3, IsPascalSeparator, false);
  }

  lemma PascalFlags()
    ensures !ScanFlag("my", IsPascalSeparator, true)
    ensures !ScanFlag(" super", IsPascalSeparator, false)
  {
  }

  lemma PascalText(w: string)
    requires w == "My" + ("Super" + "Name")
    ensures w == "MySuperName"
  {
  }

  lemma PascalExample(s: string)
    requires s == "my super-name"
    ensures ToPascalCase(s) == "MySuperName"
  {
    PascalWords(s);
    PascalMy();
    PascalSuper();
    PascalName();
    PascalFlags();
    PascalOfPieces(s, "my", " super", "-name", "My", "Super", "Name");
    PascalText("My" + ("Super" + "Name"));
  }

  lemma LowerFirstExample(p: string)
    requires p == "MySuperName"
    ensures (if p == [] then [] else [LowerChar(p[0])] + p[1..]) == "mySuperName"
  {
    assert p[0] == 'M' && p[1..] == "ySuperName";
  }

  lemma CamelExample(s: string)
    requires s == "my super-name"
    ensures ToCamelCase(s) == "mySuperName"
  {
    PascalExample(s);
    LowerFirstExample(ToPascalCase(s));
  }

  lemma ScreamingExample(s: string)
    requires s == "my super-name"
    ensures ToScreamingSnakeCase(s) == "MY_SUPER_NAME"
  {
    SnakeExample(s);
    assert ToUpper("my_super_name") == "MY_SUPER_NAME";
  }

  lemma FirstAndLowerExample(s: string)
    requires s == "my super-name"
    ensures ToUpperCaseFirst(s) == "My super-name"
    ensures ToLowerCase(s) == "my super-name"
  {
    NoUpper(s);
    LowerFixed(s);
    UpperFirstText(s[1..]);
  }

  lemma UpperFirstText(rest: string)
    requires rest == "y super-name"
    ensures [UpperChar('m')] + rest == "My super-name"
  {
  }

  lemma AllExample(s: string)
    requires s == "my super-name"
    ensures ToUpperCaseAll(s) == "MYSUPERNAME"
    ensures ToLowerCaseAll(s) == "mysupername"
  {
    StripExample(s);
    assert ToUpper("mysupername") == "MYSUPERNAME";
    assert ToLower("mysupername") == "mysupername";
  }

  /** A run of several separators becomes one: `a--b` in snake case and
      `a__b` in kebab case. */
  lemma RunCollapseExample(s: string, t: string)
    requires s == "a--b" && t == "a__b"
    ensures ToSnakeCase(s) == "a_b"
    ensures ToKebabCase(t) == "a-b"
  {
    SnakeKebabIsRunScan(s);
    SnakeKebabIsRunScan(t);
    SplitCamelWithoutUpper(s, '_');
    SplitCamelAtBoundaries(s, '_');
    SplitCamelWithoutUpper(t, '-');
    SplitCamelAtBoundaries(t, '-');
    RunScanSteps(s, IsDashOrSpace, '_');
    RunScanSteps(t, IsUnderscoreOrSpace, '-');
    assert ToLower("a_b") == "a_b";
    assert ToLower("a-b") == "a-b";
  }

  /** The scan over `a`, a two-character run and `b`. */
  lemma RunScanSteps(s: string, p: char -> bool, sep: char)
    requires |s| == 4 && s[0] == 'a' && s[3] == 'b' && p(s[1]) && p(s[2]) && !p('a') && !p('b')
    ensures RunScan(s, p, sep, false) == ['a', sep, 'b']
  {
    assert s[1..][1..] == s[2..] && s[2..][1..] == s[3..] && s[3..][1..] == [];
    assert RunScan(s[3..], p, sep, true) == ['b'];
    assert RunScan(s[2..], p, sep, true) == ['b'];
    assert RunScan(s[1..], p, sep, false) == [sep, 'b'];
  }

  /** The expected values of the test suite for the input "my super-name". */
  lemma MySuperNameExamples(s: string)
    requires s == "my super-name"
    ensures ToPascalCase(s) == "MySuperName"
    ensures ToCamelCase(s) == "mySuperName"
    ensures ToSnakeCase(s) == "my_super_name"
    ensures ToKebabCase(s) == "my-super-name"
    ensures ToScreamingSnakeCase(s) == "MY_SUPER_NAME"
    ensures ToUpperCaseFirst(s) == "My super-name"
    ensures ToLowerCase(s) == "my super-name"
    ensures ToUpperCaseAll(s) == "MYSUPERNAME"
    ensures ToLowerCaseAll(s) == "mysupername"
  {
    FirstAndLowerExample(s);
    PascalExample(s);
    CamelExample(s);
    SnakeExample(s);
    KebabExample(s);
    ScreamingExample(s);
    AllExample(s);
  }
}
