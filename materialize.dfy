/**
 * Materialisation: the two `copyTemplateWithVars` routines.
 * - src/extension.ts:185-234, the extension's copy: it breaks out of its
 *   loop at the first existing target or failed write and reports whether
 *   anything was created.
 * - src/core/templateUtils.ts:91-118, the refactored copy: a failed write
 *   throws, and otherwise the result is true.
 *
 * The destination directory is the state of a `FileSystem`: file contents
 * and existing directories, by path relative to the target directory, with
 * `/` as the only separator. The empty path is the target directory itself.
 */
module Materialize {
  import opened Wrappers
  import opened Modifiers
  import opened Tokens
  import opened TemplateTree
  import CT = CaseTransforms

  /** A snapshot of the destination directory. */
  datatype Disk = Disk(files: map<string, string>, dirs: set<string>)

  /** `fs.existsSync(path.join(targetDir, p))`. */
  predicate Exists(d: Disk, p: string)
  {
    p == "" || p in d.files || p in d.dirs
  }

  predicate IsDir(d: Disk, p: string)
  {
    p == "" || p in d.dirs
  }

  /** Every prefix of `p` that ends just before a `/`. */
  function Ancestors(p: string): set<string>
  {
    set i | 0 <= i < |p| && p[i] == '/' :: p[..i]
  }

  /** The path ends in a separator. */
  predicate EndsWithSep(p: string)
  {
    p != [] && p[|p| - 1] == '/'
  }

  /** `p` without its trailing separators, which `path.dirname` ignores. */
  function TrimSeparators(p: string): (r: string)
    ensures |r| <= |p| && r == p[..|r|]
    ensures !EndsWithSep(r)
    ensures !EndsWithSep(p) ==> r == p
  {
    if EndsWithSep(p) then TrimSeparators(p[..|p| - 1]) else p
  }

  /** The directories `path.dirname(p)` names and `mkdirSync` creates:
      `dirname` of `x/` is the target directory itself, so a trailing `/`
      adds no directory. */
  function Parents(p: string): set<string>
  {
    Ancestors(TrimSeparators(p))
  }

  /** `fs.mkdirSync(path.dirname(p), { recursive: true })`: fails when one of
      the directories to create is an existing file. */
  function Mkdir(d: Disk, p: string): Option<Disk>
  {
    if Parents(p) !! d.files.Keys then Some(Disk(d.files, d.dirs + Parents(p))) else None
  }

  /** `fs.writeFileSync(p, …, { flag })` succeeds: `p` is not a directory
      and does not end in `/` (both are EISDIR, whatever the flag), with
      flag `'wx'` it does not exist yet, and no other I/O error (`fail`)
      occurs. */
  predicate WriteOk(d: Disk, p: string, overwrite: bool, fail: bool)
  {
    !fail && !IsDir(d, p) && !EndsWithSep(p) && (overwrite || p !in d.files)
  }

  /** The target directory, as the routines see it. */
  class FileSystem {
    var files: map<string, string>
    var dirs: set<string>

    constructor (files0: map<string, string>, dirs0: set<string>)
      ensures files == files0 && dirs == dirs0
    {
      files := files0;
      dirs := dirs0;
    }

    function State(): Disk
      reads this
    {
      Disk(files, dirs)
    }

    predicate ExistsSync(p: string)
      reads this
    {
      Exists(State(), p)
    }

    method MkdirSync(p: string) returns (ok: bool)
      modifies this
      ensures ok == Mkdir(old(State()), p).Some?
      ensures State() == if ok then Mkdir(old(State()), p).value else old(State())
    {
      if !(Parents(p) !! files.Keys) {
        return false;
      }
      dirs := dirs + Parents(p);
      ok := true;
    }

    method WriteFileSync(p: string, content: string, overwrite: bool, fail: bool) returns (ok: bool)
      modifies this
      ensures ok == WriteOk(old(State()), p, overwrite, fail)
      ensures State() == if ok then Disk(old(files)[p := content], old(dirs)) else old(State())
    {
      if !WriteOk(State(), p, overwrite, fail) {
        return false;
      }
      files := files[p := content];
      ok := true;
    }
  }

  /** One file to write: its rendered target path and rendered content. */
  datatype Output = Output(path: string, content: string)

  /** `applyTemplate` applied to each file's relative path and content. */
  function Outputs(files: seq<TemplateFile>, vars: map<string, string>, reg: Registry): (outs: seq<Output>)
    ensures |outs| == |files|
    ensures forall k :: 0 <= k < |files| ==>
              outs[k] == Output(ApplyTemplate(RelPath(files[k]), vars, reg), ApplyTemplate(files[k].content, vars, reg))
  {
    seq(|files|, k requires 0 <= k < |files| =>
      Output(ApplyTemplate(RelPath(files[k]), vars, reg), ApplyTemplate(files[k].content, vars, reg)))
  }

  /** `targetRelPath.split(path.sep)[0]`. */
  function FirstLevel(p: string): (r: string)
    ensures |r| <= |p| && r == p[..|r|]
    ensures forall i :: 0 <= i < |r| ==> r[i] != '/'
    ensures |r| < |p| ==> p[|r|] == '/'
  {
    if p == [] || p[0] == '/' then [] else [p[0]] + FirstLevel(p[1..])
  }

  /** FirstLevel is the first piece of `split(path.sep)`. */
  lemma {:induction false} FirstLevelIsSplitHead(p: string)
    ensures FirstLevel(p) == CT.Split(p, '/')[0]
  {
    if p != [] && p[0] != '/' {
      FirstLevelIsSplitHead(p[1..]);
    }
  }

  /** Before rendering, the first level of a file's relative path is the
      top entry of the template it lies under. */
  lemma FirstLevelRelPath(f: TemplateFile)
    requires f.segments != [] && PlainSegments(f.segments)
    ensures FirstLevel(RelPath(f)) == f.segments[0]
  {
    FirstLevelIsSplitHead(RelPath(f));
    JoinPathSplit(f.segments);
  }

  /** The `firstLevelDirs` of the outputs. */
  function FirstLevels(outs: seq<Output>): set<string>
  {
    set k | 0 <= k < |outs| :: FirstLevel(outs[k].path)
  }

  /** The pre-check finds an existing first-level entry. */
  predicate Collides(d: Disk, outs: seq<Output>)
  {
    exists x :: x in FirstLevels(outs) && Exists(d, x)
  }

  /** The write loop from the `i`-th output on, in state `d`: the state it
      leaves and how many files it wrote. With `guard` (the extension's
      `!overwriteFiles && existsSync(target) && dict` test) an existing
      target stops the loop before anything is done for it; otherwise the
      loop stops at the first failing `mkdirSync` or `writeFileSync`. */
  function WriteRun(d: Disk, outs: seq<Output>, i: nat, overwrite: bool, guard: bool, fails: nat -> bool): (r: (Disk, nat))
    requires i <= |outs|
    ensures r.1 <= |outs| - i
    decreases |outs| - i
  {
    if i == |outs| then (d, 0)
    else if !overwrite && guard && Exists(d, outs[i].path) then (d, 0)
    else match Mkdir(d, outs[i].path)
      case None => (d, 0)
      case Some(d1) =>
        if !WriteOk(d1, outs[i].path, overwrite, fails(i)) then (d1, 0)
        else
          var r := WriteRun(Disk(d1.files[outs[i].path := outs[i].content], d1.dirs), outs, i + 1, overwrite, guard, fails);
          (r.0, r.1 + 1)
  }

  /** One step of the write loop. */
  lemma WriteRunStep(d: Disk, outs: seq<Output>, i: nat, overwrite: bool, guard: bool, fails: nat -> bool)
    requires i < |outs|
    ensures var p := outs[i].path;
            var skip := !overwrite && guard && Exists(d, p);
            (skip ==> WriteRun(d, outs, i, overwrite, guard, fails) == (d, 0)) &&
            (!skip && Mkdir(d, p).None? ==> WriteRun(d, outs, i, overwrite, guard, fails) == (d, 0)) &&
            (!skip && Mkdir(d, p).Some? && !WriteOk(Mkdir(d, p).value, p, overwrite, fails(i)) ==>
               WriteRun(d, outs, i, overwrite, guard, fails) == (Mkdir(d, p).value, 0)) &&
            (!skip && Mkdir(d, p).Some? && WriteOk(Mkdir(d, p).value, p, overwrite, fails(i)) ==>
               var next := Disk(Mkdir(d, p).value.files[p := outs[i].content], Mkdir(d, p).value.dirs);
               WriteRun(d, outs, i, overwrite, guard, fails) ==
               (WriteRun(next, outs, i + 1, overwrite, guard, fails).0, WriteRun(next, outs, i + 1, overwrite, guard, fails).1 + 1))
  {
  }

  /** The disk after `mkdirSync` and a successful `writeFileSync` of `o`. */
  function After(d: Disk, o: Output): Disk
    requires Mkdir(d, o.path).Some?
  {
    Disk(Mkdir(d, o.path).value.files[o.path := o.content], Mkdir(d, o.path).value.dirs)
  }

  /** A step of the write loop that writes its file. */
  lemma WriteRunAdvance(d: Disk, outs: seq<Output>, i: nat, overwrite: bool, guard: bool, fails: nat -> bool)
    requires i < |outs|
    requires !(!overwrite && guard && Exists(d, outs[i].path))
    requires Mkdir(d, outs[i].path).Some? && WriteOk(Mkdir(d, outs[i].path).value, outs[i].path, overwrite, fails(i))
    ensures WriteRun(d, outs, i, overwrite, guard, fails).0 == WriteRun(After(d, outs[i]), outs, i + 1, overwrite, guard, fails).0
    ensures WriteRun(d, outs, i, overwrite, guard, fails).1 == WriteRun(After(d, outs[i]), outs, i + 1, overwrite, guard, fails).1 + 1
  {
  }

  /** The files map after writing `outs[lo..hi]` in order. */
  function Overlay(m: map<string, string>, outs: seq<Output>, lo: nat, hi: nat): map<string, string>
    requires lo <= hi <= |outs|
    decreases hi - lo
  {
    if lo == hi then m else Overlay(m[outs[lo].path := outs[lo].content], outs, lo + 1, hi)
  }

  /** Writing `outs[lo..hi]` touches only their paths. */
  lemma {:induction false} OverlayOther(m: map<string, string>, outs: seq<Output>, lo: nat, hi: nat, p: string)
    requires lo <= hi <= |outs|
    requires forall k :: lo <= k < hi ==> outs[k].path != p
    ensures (p in Overlay(m, outs, lo, hi) <==> p in m) && (p in m ==> Overlay(m, outs, lo, hi)[p] == m[p])
    decreases hi - lo
  {
    if lo < hi {
      OverlayOther(m[outs[lo].path := outs[lo].content], outs, lo + 1, hi, p);
    }
  }

  /** The directories after creating the parents of `outs[lo..hi]` in order. */
  function DirsAfter(dirs: set<string>, outs: seq<Output>, lo: nat, hi: nat): set<string>
    requires lo <= hi <= |outs|
    decreases hi - lo
  {
    if lo == hi then dirs else DirsAfter(dirs + Parents(outs[lo].path), outs, lo + 1, hi)
  }

  /** A directory is there afterwards exactly when it was there before or is
      a parent of one of the paths. */
  lemma {:induction false} DirsAfterMembers(dirs: set<string>, outs: seq<Output>, lo: nat, hi: nat, q: string)
    requires lo <= hi <= |outs|
    ensures q in DirsAfter(dirs, outs, lo, hi) <==>
            q in dirs || exists k :: lo <= k < hi && q in Parents(outs[k].path)
    decreases hi - lo
  {
    if lo < hi {
      DirsAfterMembers(dirs + Parents(outs[lo].path), outs, lo + 1, hi, q);
      if q in Parents(outs[lo].path) {
        assert lo <= lo < hi && q in Parents(outs[lo].path);
      }
      if exists k :: lo <= k < hi && q in Parents(outs[k].path) {
        var k :| lo <= k < hi && q in Parents(outs[k].path);
        if k > lo {
          assert lo + 1 <= k < hi && q in Parents(outs[k].path);
        }
      }
    }
  }

  /** The loop could not write `p`: the extension's existence test stops it,
      `mkdirSync` fails, or `writeFileSync` fails. */
  predicate Refused(d: Disk, p: string, overwrite: bool, guard: bool, fail: bool)
  {
    (!overwrite && guard && Exists(d, p)) ||
    Mkdir(d, p).None? ||
    !WriteOk(Mkdir(d, p).value, p, overwrite, fail)
  }

  /** A directory `mkdirSync` has created needs no creating again. */
  lemma MkdirIdempotent(d: Disk, p: string)
    requires Mkdir(d, p).Some?
    ensures Mkdir(Mkdir(d, p).value, p) == Mkdir(d, p)
  {
  }

  /** The write loop writes a prefix of the outputs, in order, and stops at
      the first one it cannot write; nothing after that is touched. */
  lemma WriteRunPrefix(d: Disk, outs: seq<Output>, i: nat, overwrite: bool, guard: bool, fails: nat -> bool)
    requires i <= |outs|
    ensures var r := WriteRun(d, outs, i, overwrite, guard, fails);
            r.0.files == Overlay(d.files, outs, i, i + r.1) &&
            (i + r.1 < |outs| ==> Refused(r.0, outs[i + r.1].path, overwrite, guard, fails(i + r.1)))
  {
    WriteRunFiles(d, outs, i, overwrite, guard, fails);
    WriteRunStops(d, outs, i, overwrite, guard, fails);
  }

  /** The loop reached `mkdirSync` for `p` and it succeeded: the extension's
      existence test did not stop it first. */
  predicate MkdirRan(d: Disk, p: string, overwrite: bool, guard: bool)
  {
    !(!overwrite && guard && Exists(d, p)) && Mkdir(d, p).Some?
  }

  /** A path is not one of its own parent directories. */
  lemma NotOwnAncestor(p: string)
    ensures p !in Parents(p)
  {
    forall q | q in Parents(p) ensures |q| < |p| {
    }
  }

  /** Creating the parents of `p` leaves the loop's test for `p` as it was. */
  lemma MkdirRanAgain(d: Disk, p: string, overwrite: bool, guard: bool)
    requires MkdirRan(d, p, overwrite, guard)
    ensures MkdirRan(Mkdir(d, p).value, p, overwrite, guard)
  {
    NotOwnAncestor(p);
    assert Exists(Mkdir(d, p).value, p) == Exists(d, p);
    MkdirIdempotent(d, p);
  }

  /** The directories after the loop: the parents of every written file and,
      exactly when `mkdirSync` ran for the file the loop stopped at, of that
      one too. Creating its parents leaves the files, and whether the file
      exists, as they were, so the test on the final disk is the test the
      loop made. */
  lemma {:induction false} WriteRunDirs(d: Disk, outs: seq<Output>, i: nat, overwrite: bool, guard: bool, fails: nat -> bool)
    requires i <= |outs|
    ensures var r := WriteRun(d, outs, i, overwrite, guard, fails);
            var m := i + r.1;
            r.0.dirs == DirsAfter(d.dirs, outs, i,
                          if m < |outs| && MkdirRan(r.0, outs[m].path, overwrite, guard) then m + 1 else m)
    decreases |outs| - i
  {
    if i < |outs| {
      var p := outs[i].path;
      WriteRunStep(d, outs, i, overwrite, guard, fails);
      if !(!overwrite && guard && Exists(d, p)) && Mkdir(d, p).Some? {
        var d1 := Mkdir(d, p).value;
        assert d1.dirs == d.dirs + Parents(p);
        if WriteOk(d1, p, overwrite, fails(i)) {
          var next := Disk(d.files[p := outs[i].content], d1.dirs);
          var r := WriteRun(next, outs, i + 1, overwrite, guard, fails);
          assert WriteRun(d, outs, i, overwrite, guard, fails) == (r.0, r.1 + 1);
          WriteRunDirs(next, outs, i + 1, overwrite, guard, fails);
        } else {
          MkdirRanAgain(d, p, overwrite, guard);
          assert DirsAfter(d.dirs, outs, i, i + 1) == DirsAfter(d1.dirs, outs, i + 1, i + 1);
        }
      }
    }
  }

  /** The files after the loop: its written prefix laid over the old files. */
  lemma {:induction false} WriteRunFiles(d: Disk, outs: seq<Output>, i: nat, overwrite: bool, guard: bool, fails: nat -> bool)
    requires i <= |outs|
    ensures var r := WriteRun(d, outs, i, overwrite, guard, fails);
            r.0.files == Overlay(d.files, outs, i, i + r.1)
    decreases |outs| - i
  {
    if i < |outs| {
      var p := outs[i].path;
      WriteRunStep(d, outs, i, overwrite, guard, fails);
      if !(!overwrite && guard && Exists(d, p)) && Mkdir(d, p).Some? {
        var d1 := Mkdir(d, p).value;
        assert d1.files == d.files;
        if WriteOk(d1, p, overwrite, fails(i)) {
          var next := Disk(d.files[p := outs[i].content], d1.dirs);
          var r := WriteRun(next, outs, i + 1, overwrite, guard, fails);
          assert WriteRun(d, outs, i, overwrite, guard, fails) == (r.0, r.1 + 1);
          WriteRunFiles(next, outs, i + 1, overwrite, guard, fails);
        }
      }
    }
  }

  /** Where the loop stops early, the next output was refused. */
  lemma {:induction false} WriteRunStops(d: Disk, outs: seq<Output>, i: nat, overwrite: bool, guard: bool, fails: nat -> bool)
    requires i <= |outs|
    ensures var r := WriteRun(d, outs, i, overwrite, guard, fails);
            i + r.1 < |outs| ==> Refused(r.0, outs[i + r.1].path, overwrite, guard, fails(i + r.1))
    decreases |outs| - i
  {
    if i < |outs| {
      var p := outs[i].path;
      WriteRunStep(d, outs, i, overwrite, guard, fails);
      if !(!overwrite && guard && Exists(d, p)) && Mkdir(d, p).Some? {
        var d1 := Mkdir(d, p).value;
        MkdirIdempotent(d, p);
        if WriteOk(d1, p, overwrite, fails(i)) {
          var next := Disk(d1.files[p := outs[i].content], d1.dirs);
          WriteRunStops(next, outs, i + 1, overwrite, guard, fails);
        }
      }
    }
  }

  /** With flag `'wx'` no file that existed before is changed or removed. */
  lemma {:induction false} WriteRunKeeps(d: Disk, outs: seq<Output>, i: nat, guard: bool, fails: nat -> bool)
    requires i <= |outs|
    ensures var r := WriteRun(d, outs, i, false, guard, fails);
            forall p :: p in d.files ==> p in r.0.files && r.0.files[p] == d.files[p]
    decreases |outs| - i
  {
    if i < |outs| {
      var p := outs[i].path;
      WriteRunStep(d, outs, i, false, guard, fails);
      if !(guard && Exists(d, p)) && Mkdir(d, p).Some? {
        var d1 := Mkdir(d, p).value;
        if WriteOk(d1, p, false, fails(i)) {
          var next := Disk(d1.files[p := outs[i].content], d1.dirs);
          WriteRunKeeps(next, outs, i + 1, guard, fails);
        }
      }
    }
  }

  /** With flag `'wx'` every file the loop wrote holds its rendered content
      at the end: a later output with the same path finds it existing. */
  lemma {:induction false} WriteRunContent(d: Disk, outs: seq<Output>, i: nat, guard: bool, fails: nat -> bool)
    requires i <= |outs|
    ensures var r := WriteRun(d, outs, i, false, guard, fails);
            forall k :: i <= k < i + r.1 ==> outs[k].path in r.0.files && r.0.files[outs[k].path] == outs[k].content
    decreases |outs| - i
  {
    if i < |outs| {
      var p := outs[i].path;
      WriteRunStep(d, outs, i, false, guard, fails);
      if !(guard && Exists(d, p)) && Mkdir(d, p).Some? {
        var d1 := Mkdir(d, p).value;
        if WriteOk(d1, p, false, fails(i)) {
          var next := Disk(d1.files[p := outs[i].content], d1.dirs);
          WriteRunKeeps(next, outs, i + 1, guard, fails);
          WriteRunContent(next, outs, i + 1, guard, fails);
        }
      }
    }
  }

  /** The extension's `existsSync(target) && dict` test inside the loop
      does not change which files are written: without it the `'wx'` write
      fails on the same file, so the same files are written and the same
      count results. Only the directories may differ, as the unguarded loop
      runs `mkdirSync` for that file before the write is refused. */
  lemma {:induction false} GuardOnlyChangesMessage(d: Disk, outs: seq<Output>, i: nat, overwrite: bool, fails: nat -> bool)
    requires i <= |outs|
    ensures WriteRun(d, outs, i, overwrite, true, fails).1 == WriteRun(d, outs, i, overwrite, false, fails).1
    ensures WriteRun(d, outs, i, overwrite, true, fails).0.files == WriteRun(d, outs, i, overwrite, false, fails).0.files
    decreases |outs| - i
  {
    if i < |outs| {
      var p := outs[i].path;
      WriteRunStep(d, outs, i, overwrite, true, fails);
      WriteRunStep(d, outs, i, overwrite, false, fails);
      if !(!overwrite && Exists(d, p)) && Mkdir(d, p).Some? {
        var d1 := Mkdir(d, p).value;
        if WriteOk(d1, p, overwrite, fails(i)) {
          var next := Disk(d1.files[p := outs[i].content], d1.dirs);
          GuardOnlyChangesMessage(next, outs, i + 1, overwrite, fails);
        }
      }
    }
  }

  /** What the extension's routine leaves and returns. */
  function ExtensionCopy(d: Disk, outs: seq<Output>, overwrite: bool, hasDict: bool, fails: nat -> bool): (Disk, bool)
  {
    if !overwrite && hasDict && Collides(d, outs) then (d, false)
    else
      var r := WriteRun(d, outs, 0, overwrite, hasDict, fails);
      (r.0, r.1 > 0)
  }

  /** The refactored routine either returns a value or throws. */
  datatype Outcome = Returned(value: bool) | Threw

  /** What the refactored routine leaves and returns. */
  function CoreCopy(d: Disk, outs: seq<Output>, overwrite: bool, hasDict: bool, fails: nat -> bool): (Disk, Outcome)
  {
    if !overwrite && hasDict && Collides(d, outs) then (d, Returned(false))
    else
      var r := WriteRun(d, outs, 0, overwrite, false, fails);
      (r.0, if r.1 == |outs| then Returned(true) else Threw)
  }

  /** The extension's routine: a pre-check hit writes nothing and returns
      false; otherwise a prefix of the outputs is written in order, the loop
      stops at the first file it cannot write, and the result says whether
      anything was written, so an empty template gives false. With `'wx'`
      no existing file changes and each written file holds its output. */
  lemma ExtensionCopyOutcome(d: Disk, outs: seq<Output>, overwrite: bool, hasDict: bool, fails: nat -> bool)
    ensures var r := ExtensionCopy(d, outs, overwrite, hasDict, fails);
            var n := WriteRun(d, outs, 0, overwrite, hasDict, fails).1;
            (!overwrite && hasDict && Collides(d, outs) ==> r == (d, false)) &&
            (!(!overwrite && hasDict && Collides(d, outs)) ==>
               r.0.files == Overlay(d.files, outs, 0, n) && (r.1 <==> n > 0) &&
               (n < |outs| ==> Refused(r.0, outs[n].path, overwrite, hasDict, fails(n))) &&
               (!overwrite ==> forall k :: 0 <= k < n ==> outs[k].path in r.0.files && r.0.files[outs[k].path] == outs[k].content)) &&
            (!(!overwrite && hasDict && Collides(d, outs)) ==>
               r.0.dirs == DirsAfter(d.dirs, outs, 0,
                             if n < |outs| && MkdirRan(r.0, outs[n].path, overwrite, hasDict) then n + 1 else n)) &&
            (outs == [] ==> !r.1) &&
            (!overwrite ==> forall p :: p in d.files ==> p in r.0.files && r.0.files[p] == d.files[p])
  {
    WriteRunPrefix(d, outs, 0, overwrite, hasDict, fails);
    WriteRunDirs(d, outs, 0, overwrite, hasDict, fails);
    var n := WriteRun(d, outs, 0, overwrite, hasDict, fails).1;
    if !overwrite {
      WriteRunKeeps(d, outs, 0, hasDict, fails);
      WriteRunContent(d, outs, 0, hasDict, fails);
    }
  }

  /** The refactored routine: false exactly on a pre-check hit, and then
      nothing is written; true when every output was written in order,
      even for an empty template; otherwise it throws at the first file it
      cannot write, keeping the files written before and writing none after.
      With `'wx'` no existing file changes and each written file holds its
      output. */
  lemma CoreCopyOutcome(d: Disk, outs: seq<Output>, overwrite: bool, hasDict: bool, fails: nat -> bool)
    ensures var r := CoreCopy(d, outs, overwrite, hasDict, fails);
            var n := WriteRun(d, outs, 0, overwrite, false, fails).1;
            (r.1 == Returned(false) <==> !overwrite && hasDict && Collides(d, outs)) &&
            (r.1 == Returned(false) ==> r.0 == d) &&
            (r.1 == Returned(true) ==> r.0.files == Overlay(d.files, outs, 0, |outs|)) &&
            (r.1 == Returned(true) ==> r.0.dirs == DirsAfter(d.dirs, outs, 0, |outs|)) &&
            (r.1 == Threw ==>
               n < |outs| && r.0.files == Overlay(d.files, outs, 0, n) &&
               Refused(r.0, outs[n].path, overwrite, false, fails(n)) &&
               r.0.dirs == DirsAfter(d.dirs, outs, 0, if MkdirRan(r.0, outs[n].path, overwrite, false) then n + 1 else n)) &&
            (outs == [] ==> r.1 == Returned(true)) &&
            (!overwrite ==> forall p :: p in d.files ==> p in r.0.files && r.0.files[p] == d.files[p]) &&
            (!overwrite && r.1 == Returned(true) ==>
               forall k :: 0 <= k < |outs| ==> outs[k].path in r.0.files && r.0.files[outs[k].path] == outs[k].content)
  {
    WriteRunPrefix(d, outs, 0, overwrite, false, fails);
    WriteRunDirs(d, outs, 0, overwrite, false, fails);
    var n := WriteRun(d, outs, 0, overwrite, false, fails).1;
    if !overwrite {
      WriteRunKeeps(d, outs, 0, false, fails);
      WriteRunContent(d, outs, 0, false, fails);
    }
  }

  /** A rendered path ending in `/` (a value `x/`, or a last segment that
      renders empty) is refused by `writeFileSync` and creates no directory:
      into an empty target the extension returns false with nothing created,
      and the refactored routine throws. */
  lemma TrailingSeparatorRefused(fails: nat -> bool)
    ensures ExtensionCopy(Disk(map[], {}), [Output("x/", "c")], false, true, fails) == (Disk(map[], {}), false)
    ensures CoreCopy(Disk(map[], {}), [Output("x/", "c")], false, true, fails) == (Disk(map[], {}), Threw)
  {
    var d := Disk(map[], {});
    var outs := [Output("x/", "c")];
    assert TrimSeparators("x/") == "x" by {
      assert EndsWithSep("x/") && "x/"[..1] == "x";
    }
    assert Parents("x/") == {};
    assert FirstLevel("x/") == "x";
    forall y | y in FirstLevels(outs) ensures !Exists(d, y) {
      var k :| 0 <= k < |outs| && y == FirstLevel(outs[k].path);
      assert k == 0;
    }
    assert !Collides(d, outs);
    assert !Exists(d, "x/");
    assert Parents("x/") !! d.files.Keys;
    assert d.dirs + Parents("x/") == d.dirs;
    assert Mkdir(d, "x/") == Some(d);
    WriteRunStep(d, outs, 0, false, true, fails);
    WriteRunStep(d, outs, 0, false, false, fails);
  }

  /** Every existing path has its parent directories. The write loop keeps
      this (`WriteRunConsistent`). */
  predicate Consistent(d: Disk)
  {
    (forall p :: p in d.files ==> Ancestors(p) <= d.dirs) &&
    (forall p :: p in d.dirs ==> Ancestors(p) <= d.dirs)
  }

  /** The parents of a parent directory are parents of the path too. */
  lemma AncestorsClosed(p: string)
    ensures forall q :: q in Ancestors(p) ==> Ancestors(q) <= Ancestors(p)
  {
    forall q | q in Ancestors(p) ensures Ancestors(q) <= Ancestors(p) {
      var i :| 0 <= i < |p| && p[i] == '/' && q == p[..i];
      forall r | r in Ancestors(q) ensures r in Ancestors(p) {
        var j :| 0 <= j < |q| && q[j] == '/' && r == q[..j];
        assert p[j] == '/' && r == p[..j];
      }
    }
  }

  /** One successful `mkdirSync` and `writeFileSync` keep a disk consistent. */
  lemma AfterConsistent(d: Disk, o: Output)
    requires Consistent(d) && Mkdir(d, o.path).Some? && !EndsWithSep(o.path)
    ensures Consistent(After(d, o))
  {
    AncestorsClosed(o.path);
  }

  /** The write loop leaves a consistent disk consistent, also where it
      stopped after `mkdirSync`, so `PreCheckCoversTargets` applies to a disk
      an earlier run left. */
  lemma {:induction false} WriteRunConsistent(d: Disk, outs: seq<Output>, i: nat, overwrite: bool, guard: bool, fails: nat -> bool)
    requires i <= |outs| && Consistent(d)
    ensures Consistent(WriteRun(d, outs, i, overwrite, guard, fails).0)
    decreases |outs| - i
  {
    if i < |outs| {
      var p := outs[i].path;
      WriteRunStep(d, outs, i, overwrite, guard, fails);
      if !(!overwrite && guard && Exists(d, p)) && Mkdir(d, p).Some? {
        AncestorsClosed(TrimSeparators(p));
        assert Consistent(Mkdir(d, p).value);
        if WriteOk(Mkdir(d, p).value, p, overwrite, fails(i)) {
          AfterConsistent(d, outs[i]);
          WriteRunAdvance(d, outs, i, overwrite, guard, fails);
          WriteRunConsistent(After(d, outs[i]), outs, i + 1, overwrite, guard, fails);
        }
      }
    }
  }

  /** The first segment of a path is the path itself or one of its parent
      directories. */
  lemma FirstLevelIsAncestor(p: string)
    ensures FirstLevel(p) == p || FirstLevel(p) in Ancestors(p)
  {
    var r := FirstLevel(p);
    if |r| < |p| {
      assert p[|r|] == '/' && r == p[..|r|];
    } else {
      assert r == p[..|p|] == p;
    }
  }

  /** In a consistent target directory, a pre-check that finds nothing
      means no target path exists yet. */
  lemma PreCheckCoversTargets(d: Disk, outs: seq<Output>)
    requires Consistent(d) && !Collides(d, outs)
    ensures forall k :: 0 <= k < |outs| ==> !Exists(d, outs[k].path)
  {
    forall k | 0 <= k < |outs|
      ensures !Exists(d, outs[k].path)
    {
      var p := outs[k].path;
      FirstLevelIsAncestor(p);
      assert FirstLevel(p) in FirstLevels(outs);
      assert !Exists(d, FirstLevel(p));
    }
  }

  /** The `firstLevelDirs` loop. */
  method FirstLevelDirs(files: seq<TemplateFile>, vars: map<string, string>, reg: Registry) returns (dirs: set<string>)
    ensures dirs == FirstLevels(Outputs(files, vars, reg))
  {
    ghost var outs := Outputs(files, vars, reg);
    dirs := {};
    var i := 0;
    while i < |files|
      invariant 0 <= i <= |files|
      invariant dirs == set k | 0 <= k < i :: FirstLevel(outs[k].path)
    {
      var relPath := RelPath(files[i]);
      var targetRelPath := ApplyTemplate(relPath, vars, reg);
      dirs := dirs + {FirstLevel(targetRelPath)};
      i := i + 1;
    }
  }

  /** The pre-check loop `for (const dir of firstLevelDirs) if (existsSync) return false`;
      the order of the set does not change its answer. */
  method PreCheck(fs: FileSystem, dirs: set<string>) returns (clash: bool)
    ensures clash <==> exists x :: x in dirs && fs.ExistsSync(x)
  {
    var remaining := dirs;
    while remaining != {}
      invariant remaining <= dirs
      invariant forall x :: x in dirs - remaining ==> !fs.ExistsSync(x)
      decreases |remaining|
    {
      var dir :| dir in remaining;
      if fs.ExistsSync(dir) {
        return true;
      }
      remaining := remaining - {dir};
    }
    clash := false;
  }

  /** `copyTemplateWithVars` of src/extension.ts, over the template listing
      `template`; `fails(k)` says whether writing the k-th file hits an I/O
      error outside the model. */
  method CopyTemplateWithVarsExtension(template: seq<Entry>, fs: FileSystem, vars: map<string, string>,
                                       overwrite: bool, hasDict: bool, fails: nat -> bool)
    returns (created: bool)
    modifies fs
    ensures (fs.State(), created) ==
            ExtensionCopy(old(fs.State()), Outputs(Flatten(template, []), vars, ExtensionModifiers()), overwrite, hasDict, fails)
  {
    var reg := ExtensionModifiers();
    var files := ReadDirRecursive(template, []);
    var firstLevelDirs := FirstLevelDirs(files, vars, reg);
    if !overwrite && hasDict {
      var clash := PreCheck(fs, firstLevelDirs);
      if clash {
        return false;
      }
    }
    var createdCount := WriteCounted(fs, files, vars, reg, overwrite, hasDict, fails);
    created := createdCount > 0;
  }

  /** The write loop of the extension's routine: with 'wx' and a dictionary
      an existing target ends the loop, as does any failure; the count says
      how many files were written. */
  method WriteCounted(fs: FileSystem, files: seq<TemplateFile>, vars: map<string, string>, reg: Registry,
                      overwrite: bool, hasDict: bool, fails: nat -> bool)
    returns (createdCount: nat)
    modifies fs
    ensures var r := WriteRun(old(fs.State()), Outputs(files, vars, reg), 0, overwrite, hasDict, fails);
            fs.State() == r.0 && createdCount == r.1
  {
    ghost var outs := Outputs(files, vars, reg);
    ghost var total := WriteRun(fs.State(), outs, 0, overwrite, hasDict, fails);
    createdCount := 0;
    var i := 0;
    while i < |files|
      invariant 0 <= i <= |files| && createdCount == i
      invariant total.0 == WriteRun(fs.State(), outs, i, overwrite, hasDict, fails).0
      invariant total.1 == createdCount + WriteRun(fs.State(), outs, i, overwrite, hasDict, fails).1
    {
      ghost var cur := fs.State();
      var targetPath := ApplyTemplate(RelPath(files[i]), vars, reg);
      if !overwrite && fs.ExistsSync(targetPath) && hasDict {
        WriteRunStep(cur, outs, i, overwrite, hasDict, fails);
        return;
      }
      var rendered := ApplyTemplate(files[i].content, vars, reg);
      assert outs[i] == Output(targetPath, rendered);
      var made := fs.MkdirSync(targetPath);
      if !made {
        WriteRunStep(cur, outs, i, overwrite, hasDict, fails);
        return;
      }
      var written := fs.WriteFileSync(targetPath, rendered, overwrite, fails(i));
      if !written {
        WriteRunStep(cur, outs, i, overwrite, hasDict, fails);
        return;
      }
      WriteRunAdvance(cur, outs, i, overwrite, hasDict, fails);
      assert fs.State() == After(cur, outs[i]);
      createdCount := createdCount + 1;
      i := i + 1;
    }
  }

  /** `copyTemplateWithVars` of src/core/templateUtils.ts; a failing
      `mkdirSync` or `writeFileSync` throws out of the routine. */
  method CopyTemplateWithVarsCore(template: seq<Entry>, fs: FileSystem, vars: map<string, string>,
                                  overwrite: bool, hasDict: bool, lib: ChangeCaseLib, fails: nat -> bool)
    returns (outcome: Outcome)
    modifies fs
    ensures (fs.State(), outcome) ==
            CoreCopy(old(fs.State()), Outputs(Flatten(template, []), vars, CoreModifiers(lib)), overwrite, hasDict, fails)
  {
    var reg := CoreModifiers(lib);
    var files := ReadDirRecursive(template, []);
    var firstLevelDirs := FirstLevelDirs(files, vars, reg);
    if !overwrite && hasDict {
      var clash := PreCheck(fs, firstLevelDirs);
      if clash {
        return Returned(false);
      }
    }
    var completed := WriteFiles(fs, files, vars, reg, overwrite, fails);
    outcome := if completed then Returned(true) else Threw;
  }

  /** The write loop of the core routine: each file's directory is created
      and the file written; the first failure ends the routine. */
  method WriteFiles(fs: FileSystem, files: seq<TemplateFile>, vars: map<string, string>, reg: Registry,
                    overwrite: bool, fails: nat -> bool)
    returns (completed: bool)
    modifies fs
    ensures var r := WriteRun(old(fs.State()), Outputs(files, vars, reg), 0, overwrite, false, fails);
            fs.State() == r.0 && (completed <==> r.1 == |files|)
  {
    ghost var outs := Outputs(files, vars, reg);
    ghost var total := WriteRun(fs.State(), outs, 0, overwrite, false, fails);
    var i := 0;
    while i < |files|
      invariant 0 <= i <= |files|
      invariant total.0 == WriteRun(fs.State(), outs, i, overwrite, false, fails).0
      invariant total.1 == i + WriteRun(fs.State(), outs, i, overwrite, false, fails).1
    {
      ghost var cur := fs.State();
      var targetPath := ApplyTemplate(RelPath(files[i]), vars, reg);
      var rendered := ApplyTemplate(files[i].content, vars, reg);
      assert outs[i] == Output(targetPath, rendered);
      var made := fs.MkdirSync(targetPath);
      if !made {
        WriteRunStep(cur, outs, i, overwrite, false, fails);
        return false;
      }
      var written := fs.WriteFileSync(targetPath, rendered, overwrite, fails(i));
      if !written {
        WriteRunStep(cur, outs, i, overwrite, false, fails);
        return false;
      }
      WriteRunAdvance(cur, outs, i, overwrite, false, fails);
      assert fs.State() == After(cur, outs[i]);
      i := i + 1;
    }
    completed := true;
  }
}
