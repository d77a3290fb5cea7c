/**
 * The template directory and `readDirRecursive` (src/extension.ts:28-41,
 * src/core/templateUtils.ts:20-33): the listing of a directory is a sequence
 * of entries, each a file with the text `readFileSync` would return or a
 * sub-directory with its own listing.
 */
module TemplateTree {
  import CT = CaseTransforms

  datatype Entry = File(name: string, content: string) | Dir(name: string, children: seq<Entry>)

  /** A file of the template: its path below the template root, one segment
      per directory level, and its content. */
  datatype TemplateFile = TemplateFile(segments: seq<string>, content: string)

  /** The files below `list`, depth-first in listing order, with paths
      under the directory `dir`. */
  function Flatten(list: seq<Entry>, dir: seq<string>): seq<TemplateFile>
    decreases list
  {
    if list == [] then [] else Files(list[0], dir) + Flatten(list[1..], dir)
  }

  /** The files of one entry of the directory `dir`. */
  function Files(e: Entry, dir: seq<string>): seq<TemplateFile>
    decreases e
  {
    match e
    case File(n, c) => [TemplateFile(dir + [n], c)]
    case Dir(n, children) => Flatten(children, dir + [n])
  }

  /** `readDirRecursive`: walk the listing, pushing files and concatenating
      what the recursive call returns for each sub-directory. */
  method ReadDirRecursive(list: seq<Entry>, dir: seq<string>) returns (results: seq<TemplateFile>)
    ensures results == Flatten(list, dir)
    decreases list
  {
    results := [];
    var i := 0;
    while i < |list|
      invariant 0 <= i <= |list|
      invariant results == Flatten(list[..i], dir)
    {
      FlattenAppend(list[..i], [list[i]], dir);
      assert list[..i + 1] == list[..i] + [list[i]];
      match list[i] {
        case Dir(n, children) =>
          var sub := ReadDirRecursive(children, dir + [n]);
          results := results + sub;
        case File(n, c) =>
          results := results + [TemplateFile(dir + [n], c)];
      }
      i := i + 1;
    }
    assert list[..|list|] == list;
  }

  lemma {:induction false} FlattenAppend(a: seq<Entry>, b: seq<Entry>, dir: seq<string>)
    ensures Flatten(a + b, dir) == Flatten(a, dir) + Flatten(b, dir)
    decreases |a|
  {
    if a != [] {
      assert (a + b)[1..] == a[1..] + b;
      assert (a + b)[0] == a[0];
      FlattenAppend(a[1..], b, dir);
      var head := Files(a[0], dir);
      assert Flatten(a + b, dir) == head + (Flatten(a[1..], dir) + Flatten(b, dir));
      assert head + (Flatten(a[1..], dir) + Flatten(b, dir)) == (head + Flatten(a[1..], dir)) + Flatten(b, dir);
    } else {
      assert a + b == b;
    }
  }

  /** `p` names a file of content `c` in the listing. */
  ghost predicate HasFile(list: seq<Entry>, p: seq<string>, c: string)
    decreases list
  {
    |p| >= 1 &&
    exists i :: 0 <= i < |list| && list[i].name == p[0] &&
      match list[i]
      case File(_, content) => |p| == 1 && content == c
      case Dir(_, children) => HasFile(children, p[1..], c)
  }

  /** `p` names a directory in the listing. */
  ghost predicate HasDir(list: seq<Entry>, p: seq<string>)
    decreases list
  {
    |p| >= 1 &&
    exists i :: 0 <= i < |list| && list[i].name == p[0] && list[i].Dir? &&
      (|p| == 1 || HasDir(list[i].children, p[1..]))
  }

  /** A file system never lists the same name twice in one directory. */
  ghost predicate WellFormed(list: seq<Entry>)
    decreases list
  {
    (forall i, j :: 0 <= i < j < |list| ==> list[i].name != list[j].name) &&
    forall i :: 0 <= i < |list| ==> list[i].Dir? ==> WellFormed(list[i].children)
  }

  /** Every path returned lies below `dir` and names a file of the template
      with the content returned. */
  lemma {:induction false} FlattenSound(list: seq<Entry>, dir: seq<string>, f: TemplateFile)
    requires f in Flatten(list, dir)
    ensures |f.segments| > |dir| && f.segments[..|dir|] == dir
    ensures HasFile(list, f.segments[|dir|..], f.content)
    decreases list
  {
    var rest := Flatten(list[1..], dir);
    if f in rest {
      FlattenSound(list[1..], dir, f);
      var p := f.segments[|dir|..];
      var i :| 0 <= i < |list[1..]| && list[1..][i].name == p[0] &&
        match list[1..][i]
        case File(_, content) => |p| == 1 && content == f.content
        case Dir(_, children) => HasFile(children, p[1..], f.content);
      assert list[1..][i] == list[i + 1];
    } else {
      match list[0]
      case File(n, c) =>
        assert f == TemplateFile(dir + [n], c);
        assert f.segments[|dir|..] == [n];
      case Dir(n, children) =>
        FlattenSound(children, dir + [n], f);
        var p := f.segments[|dir|..];
        assert f.segments[..|dir|] == dir by {
          assert f.segments[..|dir|] == f.segments[..|dir| + 1][..|dir|];
        }
        assert p[0] == n && p[1..] == f.segments[|dir| + 1..];
    }
  }

  /** Every file of the template is returned, under `dir`. */
  lemma {:induction false} FlattenComplete(list: seq<Entry>, dir: seq<string>, p: seq<string>, c: string)
    requires HasFile(list, p, c)
    ensures TemplateFile(dir + p, c) in Flatten(list, dir)
    decreases list
  {
    var i :| 0 <= i < |list| && list[i].name == p[0] &&
      match list[i]
      case File(_, content) => |p| == 1 && content == c
      case Dir(_, children) => HasFile(children, p[1..], c);
    assert list == list[..i] + [list[i]] + list[i + 1..];
    FlattenAppend(list[..i] + [list[i]], list[i + 1..], dir);
    FlattenAppend(list[..i], [list[i]], dir);
    match list[i]
    case File(n, _) =>
      assert p == [n];
    case Dir(n, children) =>
      FlattenComplete(children, dir + [n], p[1..], c);
      assert dir + [n] + p[1..] == dir + p by {
        assert p == [n] + p[1..];
      }
  }

  lemma WellFormedTail(list: seq<Entry>)
    requires list != [] && WellFormed(list)
    ensures WellFormed(list[1..])
  {
    forall i, j | 0 <= i < j < |list| - 1
      ensures list[1..][i].name != list[1..][j].name
    {
      assert list[1..][i] == list[i + 1] && list[1..][j] == list[j + 1];
    }
    forall i | 0 <= i < |list| - 1 && list[1..][i].Dir?
      ensures WellFormed(list[1..][i].children)
    {
      assert list[1..][i] == list[i + 1];
    }
  }

  /** In a well-formed template no file is returned twice. */
  lemma {:induction false} FlattenDistinct(list: seq<Entry>, dir: seq<string>)
    requires WellFormed(list)
    ensures forall i, j :: 0 <= i < j < |Flatten(list, dir)| ==>
              Flatten(list, dir)[i].segments != Flatten(list, dir)[j].segments
    decreases list
  {
    if list != [] {
      var head := Files(list[0], dir);
      var rest := Flatten(list[1..], dir);
      WellFormedTail(list);
      FlattenDistinct(list[1..], dir);
      match list[0] {
        case File(n, c) =>
        case Dir(n, children) =>
          FlattenDistinct(children, dir + [n]);
      }
      forall i | 0 <= i < |head|
        ensures |head[i].segments| > |dir| && head[i].segments[|dir|] == list[0].name
      {
        match list[0]
        case File(n, c) =>
        case Dir(n, children) =>
          assert head[i] in Flatten(children, dir + [n]);
          FlattenSound(children, dir + [n], head[i]);
          assert head[i].segments[|dir|] == head[i].segments[..|dir| + 1][|dir|];
      }
      forall j | 0 <= j < |rest|
        ensures |rest[j].segments| > |dir| && rest[j].segments[|dir|] != list[0].name
      {
        assert rest[j] in rest;
        FlattenSound(list[1..], dir, rest[j]);
        var p := rest[j].segments[|dir|..];
        var k :| 0 <= k < |list[1..]| && list[1..][k].name == p[0] &&
          match list[1..][k]
          case File(_, content) => |p| == 1 && content == rest[j].content
          case Dir(_, children) => HasFile(children, p[1..], rest[j].content);
        assert list[1..][k] == list[k + 1];
      }
      assert Flatten(list, dir) == head + rest;
    }
  }

  /** In a well-formed template a returned path is never a directory. */
  lemma {:induction false} FileIsNotDir(list: seq<Entry>, p: seq<string>, c: string)
    requires WellFormed(list) && HasFile(list, p, c)
    ensures !HasDir(list, p)
    decreases list
  {
    var i :| 0 <= i < |list| && list[i].name == p[0] &&
      match list[i]
      case File(_, content) => |p| == 1 && content == c
      case Dir(_, children) => HasFile(children, p[1..], c);
    forall j | 0 <= j < |list| && list[j].name == p[0] && list[j].Dir?
      ensures |p| > 1 && !HasDir(list[j].children, p[1..])
    {
      assert j == i;
      FileIsNotDir(list[j].children, p[1..], c);
    }
  }

  /** `path.relative(templateDir, file)`: the segments joined by `/`. */
  function JoinPath(segments: seq<string>): (p: string)
    ensures segments == [] ==> p == ""
    ensures |segments| == 1 ==> p == segments[0]
  {
    if segments == [] then ""
    else if |segments| == 1 then segments[0]
    else segments[0] + "/" + JoinPath(segments[1..])
  }

  /** No segment holds the separator, as no name `readdirSync` lists does. */
  predicate PlainSegments(segments: seq<string>)
  {
    forall k, i :: 0 <= k < |segments| && 0 <= i < |segments[k]| ==> segments[k][i] != '/'
  }

  /** `relPath.split(path.sep)` gives back the segments `path.relative`
      joined: the round trip of JoinPath. */
  lemma {:induction false} JoinPathSplit(segments: seq<string>)
    requires segments != [] && PlainSegments(segments)
    ensures CT.Split(JoinPath(segments), '/') == segments
  {
    if |segments| == 1 {
      SplitPlain(segments[0]);
    } else {
      var rest := segments[1..];
      assert PlainSegments(rest) by {
        forall k, i | 0 <= k < |rest| && 0 <= i < |rest[k]| ensures rest[k][i] != '/' {
          assert rest[k] == segments[k + 1];
        }
      }
      assert forall i :: 0 <= i < |segments[0]| ==> segments[0][i] != '/';
      JoinPathSplit(rest);
      SplitAfterSegment(segments[0], JoinPath(rest));
    }
  }

  /** A string without the separator splits into itself alone. */
  lemma {:induction false} SplitPlain(a: string)
    requires forall i :: 0 <= i < |a| ==> a[i] != '/'
    ensures CT.Split(a, '/') == [a]
  {
    if a != [] {
      SplitPlain(a[1..]);
      assert [a[0]] + a[1..] == a;
    }
  }

  /** Splitting after a separator-free segment and one `/`. */
  lemma {:induction false} SplitAfterSegment(a: string, b: string)
    requires forall i :: 0 <= i < |a| ==> a[i] != '/'
    ensures CT.Split(a + "/" + b, '/') == [a] + CT.Split(b, '/')
  {
    var s := a + "/" + b;
    if a == [] {
      assert s == "/" + b && s[1..] == b;
    } else {
      SplitAfterSegment(a[1..], b);
      assert s[0] == a[0] && s[1..] == a[1..] + "/" + b;
      var rest := CT.Split(s[1..], '/');
      assert rest == [a[1..]] + CT.Split(b, '/');
      assert [a[0]] + rest[0] == a;
    }
  }

  /** The path of a template file relative to the template root. */
  function RelPath(f: TemplateFile): string
  {
    JoinPath(f.segments)
  }
}
