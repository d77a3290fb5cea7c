/**
 * Variable expansion and collection: `buildVarsObject` (src/core/vars.ts:4-13,
 * src/extension.ts:149-158) turns the user's answers into the map handed to
 * the renderer, and `collectUserVars` (src/core/vars.ts:17-27,
 * src/extension.ts:160-172) asks for one answer per discovered name.
 */
module Expansion {
  import opened Wrappers
  import opened Chars
  import opened Modifiers
  import opened Tokens
  import CT = CaseTransforms

  /** `Object.entries(userVars)`: the user's variables in enumeration order. */
  type Entries = seq<(string, string)>

  /** The key under which a modified value is stored: `${base}.${mod}`. */
  function Key(base: string, name: string): (k: string)
    ensures |k| == |base| + 1 + |name| && k[|base|] == '.'
  {
    base + "." + name
  }

  predicate DotFree(w: string)
  {
    forall i :: 0 <= i < |w| ==> w[i] != '.'
  }

  /** The record the entries were read from (a later entry wins). */
  function ToMap(u: Entries): map<string, string>
  {
    if u == [] then map[] else ToMap(u[..|u| - 1])[u[|u| - 1].0 := u[|u| - 1].1]
  }

  /** `m` after the inner loop has stored the modified values of `base` for
      the registry entries `reg`, in order. */
  function WithModifiers(m: map<string, string>, base: string, value: string, reg: Registry): map<string, string>
  {
    if reg == [] then m
    else WithModifiers(m, base, value, reg[..|reg| - 1])[Key(base, reg[|reg| - 1].name) := reg[|reg| - 1].transform(value)]
  }

  /** The result of `buildVarsObject` after the entries `u`. */
  function Expand(u: Entries, reg: Registry): map<string, string>
  {
    if u == [] then map[]
    else
      var (base, value) := u[|u| - 1];
      WithModifiers(Expand(u[..|u| - 1], reg)[base := value], base, value, reg)
  }

  /** `buildVarsObject`: for each entry, store the value under its own name
      and each modified value under `name.modifier`. */
  method BuildVarsObject(u: Entries, reg: Registry) returns (result: map<string, string>)
    ensures result == Expand(u, reg)
  {
    result := map[];
    var i := 0;
    while i < |u|
      invariant 0 <= i <= |u|
      invariant result == Expand(u[..i], reg)
    {
      var (base, value) := u[i];
      result := result[base := value];
      var j := 0;
      while j < |reg|
        invariant 0 <= j <= |reg|
        invariant result == WithModifiers(Expand(u[..i], reg)[base := value], base, value, reg[..j])
      {
        assert reg[..j + 1][..j] == reg[..j];
        result := result[Key(base, reg[j].name) := reg[j].transform(value)];
        j := j + 1;
      }
      assert reg[..|reg|] == reg;
      assert u[..i + 1][..i] == u[..i];
      i := i + 1;
    }
    assert u[..|u|] == u;
  }

  // ---------------------------------------------------------------------
  // Keys
  // ---------------------------------------------------------------------

  /** The keys the modifiers of `reg` derive from `base`. */
  function ModKeys(base: string, reg: Registry): set<string>
  {
    set k | 0 <= k < |reg| :: Key(base, reg[k].name)
  }

  /** The keys derived from every name in `bases`. */
  function DerivedKeys(bases: set<string>, reg: Registry): set<string>
  {
    set b, k | b in bases && 0 <= k < |reg| :: Key(b, reg[k].name)
  }

  /** One base with two different modifier names gives two different keys. */
  lemma KeyNamesDiffer(base: string, n1: string, n2: string)
    requires n1 != n2
    ensures Key(base, n1) != Key(base, n2)
  {
    KeyParts(base, n1);
    KeyParts(base, n2);
  }

  /** Dot-free names followed by `.name` can only be equal when both parts are. */
  lemma KeyInjective(b1: string, n1: string, b2: string, n2: string)
    requires DotFree(b1) && DotFree(b2)
    ensures Key(b1, n1) == Key(b2, n2) ==> b1 == b2 && n1 == n2
  {
    KeyParts(b1, n1);
    KeyParts(b2, n2);
  }

  /** A key splits back into its name and its modifier name. */
  lemma KeyParts(base: string, name: string)
    ensures Key(base, name)[..|base|] == base && Key(base, name)[|base| + 1..] == name
    ensures forall i :: 0 <= i < |base| ==> Key(base, name)[i] == base[i]
  {
  }

  /** A dot-free name is none of the keys derived from `base`. */
  lemma PlainNotModKey(b: string, base: string, reg: Registry)
    requires DotFree(b)
    ensures b !in ModKeys(base, reg)
  {
    forall k | 0 <= k < |reg|
      ensures Key(base, reg[k].name) != b
    {
      KeyNotDotFree(base, reg[k].name);
    }
  }

  /** `ModKeys` of a registry is that of its prefix plus the last key. */
  lemma ModKeysSnoc(base: string, reg: Registry)
    requires reg != []
    ensures ModKeys(base, reg) == ModKeys(base, reg[..|reg| - 1]) + {Key(base, reg[|reg| - 1].name)}
  {
    var n := |reg| - 1;
    forall x | x in ModKeys(base, reg)
      ensures x in ModKeys(base, reg[..n]) + {Key(base, reg[n].name)}
    {
      var k :| 0 <= k < |reg| && x == Key(base, reg[k].name);
      if k < n {
        assert reg[..n][k] == reg[k];
      }
    }
    forall x | x in ModKeys(base, reg[..n])
      ensures x in ModKeys(base, reg)
    {
      var k :| 0 <= k < n && x == Key(base, reg[..n][k].name);
      assert reg[..n][k] == reg[k];
    }
  }

  /** A key with a dot is never a dot-free name. */
  lemma KeyNotDotFree(base: string, name: string)
    ensures !DotFree(Key(base, name))
  {
  }

  lemma {:induction false} WithModifiersKeys(m: map<string, string>, base: string, value: string, reg: Registry)
    ensures WithModifiers(m, base, value, reg).Keys == m.Keys + ModKeys(base, reg)
    decreases |reg|
  {
    if reg != [] {
      var n := |reg| - 1;
      WithModifiersKeys(m, base, value, reg[..n]);
      ModKeysSnoc(base, reg);
    }
  }

  lemma {:induction false} ToMapKeys(u: Entries)
    ensures ToMap(u).Keys == set i | 0 <= i < |u| :: u[i].0
    decreases |u|
  {
    if u != [] {
      var n := |u| - 1;
      ToMapKeys(u[..n]);
      forall x | x in ToMap(u).Keys
        ensures exists i :: 0 <= i < |u| && x == u[i].0
      {
        if x != u[n].0 {
          var i :| 0 <= i < n && x == u[..n][i].0;
          assert u[..n][i] == u[i];
        }
      }
      forall i | 0 <= i < |u|
        ensures u[i].0 in ToMap(u)
      {
        if i < n {
          assert u[..n][i] == u[i];
        }
      }
    }
  }

  /** `buildVarsObject` produces the user's names and the names derived from
      them, and no other key. */
  lemma {:induction false} ExpandKeys(u: Entries, reg: Registry)
    ensures Expand(u, reg).Keys == ToMap(u).Keys + DerivedKeys(ToMap(u).Keys, reg)
    decreases |u|
  {
    if u != [] {
      var n := |u| - 1;
      var (base, value) := u[n];
      var prev := Expand(u[..n], reg);
      ExpandKeys(u[..n], reg);
      WithModifiersKeys(prev[base := value], base, value, reg);
      var bases := ToMap(u[..n]).Keys;
      assert ToMap(u).Keys == bases + {base};
      forall x | x in DerivedKeys(bases + {base}, reg)
        ensures x in DerivedKeys(bases, reg) + ModKeys(base, reg)
      {
        var b, k :| b in bases + {base} && 0 <= k < |reg| && x == Key(b, reg[k].name);
        if b != base {
          assert x in DerivedKeys(bases, reg);
        }
      }
      forall x | x in DerivedKeys(bases, reg) + ModKeys(base, reg)
        ensures x in DerivedKeys(bases + {base}, reg)
      {
        if x in ModKeys(base, reg) {
          var k :| 0 <= k < |reg| && x == Key(base, reg[k].name);
        } else {
          var b, k :| b in bases && 0 <= k < |reg| && x == Key(b, reg[k].name);
        }
      }
    }
  }

  // ---------------------------------------------------------------------
  // Values
  // ---------------------------------------------------------------------

  lemma {:induction false} WithModifiersOther(m: map<string, string>, base: string, value: string, reg: Registry, x: string)
    requires x !in ModKeys(base, reg)
    ensures (x in WithModifiers(m, base, value, reg) <==> x in m)
    ensures x in m ==> WithModifiers(m, base, value, reg)[x] == m[x]
    decreases |reg|
  {
    if reg != [] {
      var n := |reg| - 1;
      ModKeysSnoc(base, reg);
      WithModifiersOther(m, base, value, reg[..n], x);
    }
  }

  lemma {:induction false} WithModifiersAt(m: map<string, string>, base: string, value: string, reg: Registry, k: nat)
    requires DistinctNames(reg) && k < |reg|
    ensures Key(base, reg[k].name) in WithModifiers(m, base, value, reg)
    ensures WithModifiers(m, base, value, reg)[Key(base, reg[k].name)] == reg[k].transform(value)
    decreases |reg|
  {
    var n := |reg| - 1;
    if k < n {
      assert reg[..n][k] == reg[k];
      DistinctNamesPrefix(reg, n);
      WithModifiersAt(m, base, value, reg[..n], k);
      KeyNamesDiffer(base, reg[k].name, reg[n].name);
    }
  }

  /** On a dot-free name, `buildVarsObject(u)` agrees with `u` itself:
      present exactly when `u` has it, with the user's value. */
  lemma {:induction false} ExpandPlainKey(u: Entries, reg: Registry, b: string)
    requires DotFree(b)
    ensures b in Expand(u, reg) <==> b in ToMap(u)
    ensures b in ToMap(u) ==> Expand(u, reg)[b] == ToMap(u)[b]
    decreases |u|
  {
    if u != [] {
      var n := |u| - 1;
      var (base, value) := u[n];
      ExpandPlainKey(u[..n], reg, b);
      PlainNotModKey(b, base, reg);
      WithModifiersOther(Expand(u[..n], reg)[base := value], base, value, reg, b);
    }
  }

  /** Every entry's names are dot-free. */
  predicate AllDotFree(u: Entries)
  {
    forall i :: 0 <= i < |u| ==> DotFree(u[i].0)
  }

  /** With dot-free names and distinct modifier names, `name.mod` holds the
      modifier applied to the user's value of `name`. */
  lemma {:induction false} ExpandModifiedKey(u: Entries, reg: Registry, b: string, k: nat)
    requires AllDotFree(u) && DistinctNames(reg) && DotFree(b) && b in ToMap(u) && k < |reg|
    ensures Key(b, reg[k].name) in Expand(u, reg)
    ensures Expand(u, reg)[Key(b, reg[k].name)] == reg[k].transform(ToMap(u)[b])
    decreases |u|
  {
    var n := |u| - 1;
    var (base, value) := u[n];
    var prev := Expand(u[..n], reg);
    if b == base {
      WithModifiersAt(prev[base := value], base, value, reg, k);
    } else {
      assert AllDotFree(u[..n]) by {
        forall i | 0 <= i < n
          ensures DotFree(u[..n][i].0)
        {
          assert u[..n][i] == u[i];
        }
      }
      assert DotFree(base) by {
        assert u[n].0 == base;
      }
      ExpandModifiedKey(u[..n], reg, b, k);
      var x := Key(b, reg[k].name);
      forall j | 0 <= j < |reg|
        ensures Key(base, reg[j].name) != x
      {
        KeyInjective(b, reg[k].name, base, reg[j].name);
      }
      KeyNotDotFree(b, reg[k].name);
      WithModifiersOther(prev[base := value], base, value, reg, x);
    }
  }

  // ---------------------------------------------------------------------
  // Size
  // ---------------------------------------------------------------------

  lemma {:induction false} ModKeysSize(base: string, reg: Registry)
    requires DistinctNames(reg)
    ensures |ModKeys(base, reg)| == |reg|
    decreases |reg|
  {
    if reg != [] {
      var n := |reg| - 1;
      DistinctNamesPrefix(reg, n);
      ModKeysSize(base, reg[..n]);
      ModKeysSnoc(base, reg);
      var last := Key(base, reg[n].name);
      forall k | 0 <= k < n
        ensures Key(base, reg[..n][k].name) != last
      {
        assert reg[..n][k] == reg[k];
        KeyNamesDiffer(base, reg[k].name, reg[n].name);
      }
      assert last !in ModKeys(base, reg[..n]);
    }
  }

  /** The entries name distinct variables (object keys are unique). */
  predicate DistinctBases(u: Entries)
  {
    forall i, j :: 0 <= i < j < |u| ==> u[i].0 != u[j].0
  }

  /** With distinct dot-free names and distinct modifier names,
      `buildVarsObject` has exactly `|u| * (1 + |reg|)` keys. */
  lemma {:induction false} ExpandSize(u: Entries, reg: Registry)
    requires DistinctBases(u) && AllDotFree(u) && DistinctNames(reg)
    ensures |Expand(u, reg).Keys| == |u| * (1 + |reg|)
    decreases |u|
  {
    if u != [] {
      var n := |u| - 1;
      var base := u[n].0;
      assert DistinctBases(u[..n]) && AllDotFree(u[..n]) by {
        forall i | 0 <= i < n
          ensures u[..n][i] == u[i]
        {
        }
      }
      ExpandSize(u[..n], reg);
      ExpandSnocSize(u, reg);
      MulSucc(n, 1 + |reg|);
    }
  }

  /** The last entry adds `1 + |reg|` keys. */
  lemma ExpandSnocSize(u: Entries, reg: Registry)
    requires u != [] && DistinctBases(u) && AllDotFree(u) && DistinctNames(reg)
    ensures |Expand(u, reg).Keys| == |Expand(u[..|u| - 1], reg).Keys| + 1 + |reg|
  {
    var n := |u| - 1;
    var base := u[n].0;
    var prev := Expand(u[..n], reg).Keys;
    var added := {base} + ModKeys(base, reg);
    ExpandSnocKeys(u, reg);
    ModKeysSize(base, reg);
    PlainNotModKey(base, base, reg);
    assert |added| == 1 + |reg|;
    assert |prev + added| == |prev| + |added|;
  }

  lemma MulSucc(n: nat, r: nat)
    ensures (n + 1) * r == n * r + r
  {
  }

  /** The last entry adds its own name and the keys derived from it; none of
      them was present before. */
  lemma ExpandSnocKeys(u: Entries, reg: Registry)
    requires u != [] && DistinctBases(u) && AllDotFree(u)
    ensures Expand(u, reg).Keys == Expand(u[..|u| - 1], reg).Keys + ({u[|u| - 1].0} + ModKeys(u[|u| - 1].0, reg))
    ensures Expand(u[..|u| - 1], reg).Keys !! {u[|u| - 1].0} + ModKeys(u[|u| - 1].0, reg)
  {
    var n := |u| - 1;
    var (base, value) := u[n];
    WithModifiersKeys(Expand(u[..n], reg)[base := value], base, value, reg);
    var bases := ToMap(u[..n]).Keys;
    ExpandKeys(u[..n], reg);
    ToMapKeys(u[..n]);
    assert DotFree(base);
    forall x | x in Expand(u[..n], reg).Keys
      ensures x != base && x !in ModKeys(base, reg)
    {
      if x in bases {
        var i :| 0 <= i < n && x == u[..n][i].0;
        assert u[..n][i] == u[i];
        PlainNotModKey(x, base, reg);
      } else {
        var b, k :| b in bases && 0 <= k < |reg| && x == Key(b, reg[k].name);
        var i :| 0 <= i < n && b == u[..n][i].0;
        assert u[..n][i] == u[i];
        KeyNotDotFree(b, reg[k].name);
        forall j | 0 <= j < |reg|
          ensures Key(base, reg[j].name) != x
        {
          KeyInjective(b, reg[k].name, base, reg[j].name);
        }
      }
    }
  }

  /** For the extension's registry of nine modifiers: ten keys per variable. */
  lemma ExtensionExpandSize(u: Entries)
    requires DistinctBases(u) && AllDotFree(u)
    ensures |Expand(u, ExtensionModifiers()).Keys| == 10 * |u|
  {
    var reg := ExtensionModifiers();
    RegistryNames(ChangeCaseLib(CT.ToCamelCase, CT.ToPascalCase, CT.ToSnakeCase, CT.ToKebabCase,
                                CT.ToScreamingSnakeCase, CT.ToUpperCaseFirst, CT.ToLowerCase));
    assert |reg| == 9;
    ExpandSize(u, reg);
    assert |u| * (1 + |reg|) == 10 * |u|;
  }

  // ---------------------------------------------------------------------
  // Rendering with the expanded map
  // ---------------------------------------------------------------------

  /** Identifiers, and so placeholder base names, have no dot. */
  lemma IdentDotFree(w: string)
    requires IsIdent(w)
    ensures DotFree(w)
  {
  }

  /** Rendering with `buildVarsObject(u)` gives the same text as rendering
      with `u` itself: the derived `name.mod` keys are never looked up. */
  lemma RenderExpanded(s: string, u: Entries, expandReg: Registry, reg: Registry)
    ensures ApplyTemplate(s, Expand(u, expandReg), reg) == ApplyTemplate(s, ToMap(u), reg)
  {
    TokenBasesAreIdents(s);
    forall b | b in TokenBases(s)
      ensures (b in Expand(u, expandReg) <==> b in ToMap(u))
      ensures b in Expand(u, expandReg) ==> Expand(u, expandReg)[b] == ToMap(u)[b]
    {
      IdentDotFree(b);
      ExpandPlainKey(u, expandReg, b);
    }
    ApplyDependsOnlyOnBases(s, Expand(u, expandReg), ToMap(u), reg);
  }

  // ---------------------------------------------------------------------
  // collectUserVars
  // ---------------------------------------------------------------------

  /** `if (!input)`: a cancelled prompt and an empty answer both count as missing. */
  predicate Answered(a: Option<string>)
  {
    a.Some? && a.value != ""
  }

  /** `collectUserVars`: one prompt per name, in iteration order; `answer(k)`
      is what the user gives at the k-th prompt. On the first missing answer
      it fails with that name and asks nothing more; `asked` counts prompts. */
  method CollectUserVars(baseVars: seq<string>, answer: nat -> Option<string>)
    returns (r: Result<map<string, string>, string>, asked: nat)
    requires forall i, j :: 0 <= i < j < |baseVars| ==> baseVars[i] != baseVars[j]
    ensures asked <= |baseVars|
    ensures r.Success? <==> forall k :: 0 <= k < |baseVars| ==> Answered(answer(k))
    ensures r.Success? ==> asked == |baseVars|
    ensures r.Success? ==> r.value.Keys == set v | v in baseVars
    ensures r.Success? ==> forall k :: 0 <= k < |baseVars| ==> r.value[baseVars[k]] == answer(k).value
    ensures r.Failure? ==>
              0 < asked && r.error == baseVars[asked - 1] && !Answered(answer(asked - 1)) &&
              forall k :: 0 <= k < asked - 1 ==> Answered(answer(k))
  {
    var result: map<string, string> := map[];
    asked := 0;
    while asked < |baseVars|
      invariant asked <= |baseVars|
      invariant forall k :: 0 <= k < asked ==> Answered(answer(k))
      invariant result.Keys == set k | 0 <= k < asked :: baseVars[k]
      invariant forall k :: 0 <= k < asked ==> result[baseVars[k]] == answer(k).value
    {
      var v := baseVars[asked];
      var input := answer(asked);
      asked := asked + 1;
      if !Answered(input) {
        return Failure(v), asked;
      }
      result := result[v := input.value];
    }
    assert (set k | 0 <= k < |baseVars| :: baseVars[k]) == set v | v in baseVars by {
      forall v | v in baseVars
        ensures exists k :: 0 <= k < |baseVars| && baseVars[k] == v
      {
        var k :| 0 <= k < |baseVars| && baseVars[k] == v;
      }
    }
    r := Success(result);
  }
}
