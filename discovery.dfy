/**
 * Variable discovery: `getAllTemplateVariables` (src/extension.ts:114-133,
 * src/core/templateUtils.ts:62-78) runs the global placeholder regex over
 * each file's relative path and content with `exec` and keeps the base names.
 */
module Discovery {
  import opened Wrappers
  import opened Modifiers
  import opened Tokens
  import opened TemplateTree

  /** `varRegex.exec(s)` with `lastIndex == i`: the leftmost position at or
      after `i` where a placeholder matches, or null. */
  function Exec(s: string, i: nat): (r: Option<nat>)
    requires i <= |s|
    ensures r.Some? ==> i <= r.value && TokenAt(s, r.value)
    ensures r.Some? ==> forall k :: i <= k < r.value ==> !TokenAt(s, k)
    ensures r.None? ==> forall k :: i <= k < |s| ==> !TokenAt(s, k)
    decreases |s| - i
  {
    if i == |s| then None
    else if SpanAt(s, i).Some? then Some(i)
    else Exec(s, i + 1)
  }

  /** What the pass finds from `i` on is what `exec` finds next, plus what
      it finds after that match. */
  lemma {:induction false} ExecBases(s: string, i: nat)
    requires i <= |s|
    ensures Exec(s, i).None? ==> BasesFrom(s, i) == {}
    ensures Exec(s, i).Some? ==>
              BasesFrom(s, i) == {BaseAt(s, Exec(s, i).value)} + BasesFrom(s, SpanAt(s, Exec(s, i).value).value.end)
    decreases |s| - i
  {
    if i < |s| && SpanAt(s, i).None? {
      ExecBases(s, i + 1);
    }
  }

  /** One `while ((match = varRegex.exec(s)) !== null) vars.add(match[1])`
      loop. The loop ends when `exec` returns null, which resets `lastIndex`
      to 0, so the next loop starts at the beginning of its string. */
  method AddMatches(s: string, vars: set<string>) returns (result: set<string>)
    ensures result == vars + TokenBases(s)
  {
    result := vars;
    var lastIndex := 0;
    var m := Exec(s, lastIndex);
    while m.Some?
      invariant lastIndex <= |s|
      invariant m == Exec(s, lastIndex)
      invariant result + BasesFrom(s, lastIndex) == vars + TokenBases(s)
      decreases |s| - lastIndex
    {
      ExecBases(s, lastIndex);
      var sp := SpanAt(s, m.value).value;
      result := result + {TokenOf(s, sp).base};
      lastIndex := sp.end;
      m := Exec(s, lastIndex);
    }
    ExecBases(s, lastIndex);
  }

  /** The base names found in the relative paths and contents of `files`. */
  function FilesBases(files: seq<TemplateFile>): set<string>
  {
    if files == [] then {}
    else FilesBases(files[..|files| - 1]) + TokenBases(RelPath(files[|files| - 1])) + TokenBases(files[|files| - 1].content)
  }

  /** `getAllTemplateVariables(templateDir)`, with the template given as its
      top-level listing. */
  method GetAllTemplateVariables(template: seq<Entry>) returns (vars: set<string>)
    ensures vars == FilesBases(Flatten(template, []))
  {
    var files := ReadDirRecursive(template, []);
    vars := {};
    var i := 0;
    while i < |files|
      invariant 0 <= i <= |files|
      invariant vars == FilesBases(files[..i])
    {
      var relPath := RelPath(files[i]);
      vars := AddMatches(relPath, vars);
      var content := files[i].content;
      vars := AddMatches(content, vars);
      assert files[..i + 1][..i] == files[..i];
      i := i + 1;
    }
    assert files[..|files|] == files;
  }

  /** Some placeholder of the file's relative path or content has base `x`. */
  ghost predicate UsesName(f: TemplateFile, x: string)
  {
    exists j: nat :: (TokenAt(RelPath(f), j) && BaseAt(RelPath(f), j) == x) ||
                     (TokenAt(f.content, j) && BaseAt(f.content, j) == x)
  }

  lemma UsesNameBases(f: TemplateFile, x: string)
    ensures UsesName(f, x) <==> x in TokenBases(RelPath(f)) + TokenBases(f.content)
  {
    TokenBasesExact(RelPath(f), x);
    TokenBasesExact(f.content, x);
  }

  /** A name is discovered exactly when some placeholder of some file's
      relative path or content has it as its base name. */
  lemma {:induction false} FilesBasesExact(files: seq<TemplateFile>, x: string)
    ensures x in FilesBases(files) <==> exists k :: 0 <= k < |files| && UsesName(files[k], x)
    decreases |files|
  {
    if files != [] {
      var n := |files| - 1;
      FilesBasesExact(files[..n], x);
      UsesNameBases(files[n], x);
      UsesNameSnoc(files, files[..n], x);
    }
  }

  lemma UsesNameSnoc(files: seq<TemplateFile>, init: seq<TemplateFile>, x: string)
    requires files != [] && init == files[..|files| - 1]
    ensures (exists k :: 0 <= k < |files| && UsesName(files[k], x)) <==>
            (exists k :: 0 <= k < |init| && UsesName(init[k], x)) || UsesName(files[|files| - 1], x)
  {
    assert forall k :: 0 <= k < |init| ==> init[k] == files[k];
  }

  /** Discovered names are plain identifiers: never a `name.modifier` key. */
  lemma {:induction false} FilesBasesAreIdents(files: seq<TemplateFile>)
    ensures forall x :: x in FilesBases(files) ==> IsIdent(x)
    decreases |files|
  {
    if files != [] {
      FilesBasesAreIdents(files[..|files| - 1]);
      TokenBasesAreIdents(RelPath(files[|files| - 1]));
      TokenBasesAreIdents(files[|files| - 1].content);
    }
  }

  /** Each file's own names are among the discovered ones. */
  lemma {:induction false} FilesBasesCover(files: seq<TemplateFile>, k: nat)
    requires k < |files|
    ensures TokenBases(RelPath(files[k])) <= FilesBases(files)
    ensures TokenBases(files[k].content) <= FilesBases(files)
    decreases |files|
  {
    var n := |files| - 1;
    if k < n {
      FilesBasesCover(files[..n], k);
      assert files[..n][k] == files[k];
    }
  }

  /** Rendering a path or a content of the template only looks at the
      discovered names: two variable maps that agree on them render every
      file identically. */
  lemma RenderUsesDiscovered(files: seq<TemplateFile>, k: nat, v1: map<string, string>, v2: map<string, string>, reg: Registry)
    requires k < |files| && AgreeOn(v1, v2, FilesBases(files))
    ensures ApplyTemplate(RelPath(files[k]), v1, reg) == ApplyTemplate(RelPath(files[k]), v2, reg)
    ensures ApplyTemplate(files[k].content, v1, reg) == ApplyTemplate(files[k].content, v2, reg)
  {
    FilesBasesCover(files, k);
    ApplyDependsOnlyOnBases(RelPath(files[k]), v1, v2, reg);
    ApplyDependsOnlyOnBases(files[k].content, v1, v2, reg);
  }
}
