/**
 * The modifier registries: the name-to-function tables `CASE_MODIFIERS` of
 * src/extension.ts:136-146 and src/core/templateUtils.ts:8-18, kept as
 * sequences in the order `Object.entries` lists them.
 */
module Modifiers {
  import opened Wrappers
  import opened CaseTransforms

  datatype Modifier = Modifier(name: string, transform: string -> string)

  type Registry = seq<Modifier>

  /** Object keys are unique, so a registry never names a modifier twice. */
  predicate DistinctNames(reg: Registry)
  {
    forall i, j :: 0 <= i < j < |reg| ==> reg[i].name != reg[j].name
  }

  lemma DistinctNamesPrefix(reg: Registry, n: nat)
    requires DistinctNames(reg) && n <= |reg|
    ensures DistinctNames(reg[..n])
  {
    forall i, j | 0 <= i < j < n
      ensures reg[..n][i].name != reg[..n][j].name
    {
      assert reg[..n][i] == reg[i] && reg[..n][j] == reg[j];
    }
  }

  /** Position of the modifier called `name`, if any (`modifiers[name]`). */
  function IndexOf(reg: Registry, name: string): (r: Option<nat>)
    ensures r.Some? ==> r.value < |reg| && reg[r.value].name == name
    ensures r.Some? ==> forall j :: 0 <= j < r.value ==> reg[j].name != name
    ensures r.None? ==> forall j :: 0 <= j < |reg| ==> reg[j].name != name
  {
    if reg == [] then None
    else if reg[0].name == name then Some(0)
    else match IndexOf(reg[1..], name)
      case None => None
      case Some(k) => Some(k + 1)
  }

  /** `modifiers[name](value)` when the registry has that name, else None. */
  function ApplyNamed(reg: Registry, name: string, value: string): Option<string>
  {
    match IndexOf(reg, name)
    case None => None
    case Some(i) => Some(reg[i].transform(value))
  }

  /** The registered modifier names, in registry order. */
  const ModifierNames: seq<string> := [
    "pascalCase", "camelCase", "snakeCase", "kebabCase", "screamingSnakeCase",
    "upperCase", "lowerCase", "upperCaseAll", "lowerCaseAll"
  ]

  /** `CASE_MODIFIERS` of src/extension.ts: the extension's own transforms. */
  function ExtensionModifiers(): Registry
  {
    [ Modifier("pascalCase", ToPascalCase),
      Modifier("camelCase", ToCamelCase),
      Modifier("snakeCase", ToSnakeCase),
      Modifier("kebabCase", ToKebabCase),
      Modifier("screamingSnakeCase", ToScreamingSnakeCase),
      Modifier("upperCase", ToUpperCaseFirst),
      Modifier("lowerCase", ToLowerCase),
      Modifier("upperCaseAll", ToUpperCaseAll),
      Modifier("lowerCaseAll", ToLowerCaseAll) ]
  }

  /** The seven functions src/core/templateUtils.ts imports from the
      change-case-all package; the model knows nothing about them. */
  datatype ChangeCaseLib = ChangeCaseLib(
    camelCase: string -> string,
    pascalCase: string -> string,
    snakeCase: string -> string,
    kebabCase: string -> string,
    constantCase: string -> string,
    upperCase: string -> string,
    lowerCase: string -> string)

  /** `CASE_MODIFIERS` of src/core/templateUtils.ts, over a given library. */
  function CoreModifiers(lib: ChangeCaseLib): Registry
  {
    [ Modifier("pascalCase", lib.pascalCase),
      Modifier("camelCase", lib.camelCase),
      Modifier("snakeCase", lib.snakeCase),
      Modifier("kebabCase", lib.kebabCase),
      Modifier("screamingSnakeCase", lib.constantCase),
      Modifier("upperCase", lib.upperCase),
      Modifier("lowerCase", lib.lowerCase),
      Modifier("upperCaseAll", ToUpperCaseAll),
      Modifier("lowerCaseAll", ToLowerCaseAll) ]
  }

  /** With distinct names, the lookup finds each entry at its own place. */
  lemma IndexOfDistinct(reg: Registry, k: nat)
    requires DistinctNames(reg) && k < |reg|
    ensures IndexOf(reg, reg[k].name) == Some(k)
  {
  }

  /** Both registries list the same nine distinct names in the same order. */
  lemma RegistryNames(lib: ChangeCaseLib)
    ensures |ExtensionModifiers()| == |CoreModifiers(lib)| == |ModifierNames| == 9
    ensures forall i :: 0 <= i < 9 ==>
              ExtensionModifiers()[i].name == ModifierNames[i] == CoreModifiers(lib)[i].name
    ensures forall i, j :: 0 <= i < j < 9 ==> ModifierNames[i] != ModifierNames[j]
    ensures DistinctNames(ExtensionModifiers()) && DistinctNames(CoreModifiers(lib))
  {
  }

  /** Looking a name up in the extension registry applies the transform of
      that name, and an unregistered name finds nothing. */
  lemma ExtensionLookup(s: string)
    ensures ApplyNamed(ExtensionModifiers(), "pascalCase", s) == Some(ToPascalCase(s))
    ensures ApplyNamed(ExtensionModifiers(), "camelCase", s) == Some(ToCamelCase(s))
    ensures ApplyNamed(ExtensionModifiers(), "snakeCase", s) == Some(ToSnakeCase(s))
    ensures ApplyNamed(ExtensionModifiers(), "kebabCase", s) == Some(ToKebabCase(s))
    ensures ApplyNamed(ExtensionModifiers(), "screamingSnakeCase", s) == Some(ToScreamingSnakeCase(s))
    ensures ApplyNamed(ExtensionModifiers(), "upperCase", s) == Some(ToUpperCaseFirst(s))
    ensures ApplyNamed(ExtensionModifiers(), "lowerCase", s) == Some(ToLowerCase(s))
    ensures ApplyNamed(ExtensionModifiers(), "upperCaseAll", s) == Some(ToUpperCaseAll(s))
    ensures ApplyNamed(ExtensionModifiers(), "lowerCaseAll", s) == Some(ToLowerCaseAll(s))
  {
    var reg := ExtensionModifiers();
    RegistryNames(ChangeCaseLib(ToCamelCase, ToPascalCase, ToSnakeCase, ToKebabCase,
                                ToScreamingSnakeCase, ToUpperCaseFirst, ToLowerCase));
    IndexOfDistinct(reg, 0);
    IndexOfDistinct(reg, 1);
    IndexOfDistinct(reg, 2);
    IndexOfDistinct(reg, 3);
    IndexOfDistinct(reg, 4);
    IndexOfDistinct(reg, 5);
    IndexOfDistinct(reg, 6);
    IndexOfDistinct(reg, 7);
    IndexOfDistinct(reg, 8);
  }

  /** A name that is not registered is found in neither registry. */
  lemma UnknownModifierNotFound(lib: ChangeCaseLib, name: string, s: string)
    requires name !in ModifierNames
    ensures ApplyNamed(ExtensionModifiers(), name, s) == None
    ensures ApplyNamed(CoreModifiers(lib), name, s) == None
  {
    RegistryNames(lib);
  }

  /** Looking a name up in the templateUtils registry applies the library
      function of that name; `screamingSnakeCase` is the library's
      `constantCase`, and the two `...All` entries are the same functions as
      the extension's. */
  lemma CoreLookup(lib: ChangeCaseLib, s: string)
    ensures ApplyNamed(CoreModifiers(lib), "upperCaseAll", s) == Some(ToUpperCaseAll(s))
    ensures ApplyNamed(CoreModifiers(lib), "lowerCaseAll", s) == Some(ToLowerCaseAll(s))
    ensures ApplyNamed(CoreModifiers(lib), "screamingSnakeCase", s) == Some(lib.constantCase(s))
    ensures ApplyNamed(CoreModifiers(lib), "pascalCase", s) == Some(lib.pascalCase(s))
    ensures ApplyNamed(CoreModifiers(lib), "camelCase", s) == Some(lib.camelCase(s))
    ensures ApplyNamed(CoreModifiers(lib), "snakeCase", s) == Some(lib.snakeCase(s))
    ensures ApplyNamed(CoreModifiers(lib), "kebabCase", s) == Some(lib.kebabCase(s))
    ensures ApplyNamed(CoreModifiers(lib), "upperCase", s) == Some(lib.upperCase(s))
    ensures ApplyNamed(CoreModifiers(lib), "lowerCase", s) == Some(lib.lowerCase(s))
  {
    var reg := CoreModifiers(lib);
    RegistryNames(lib);
    IndexOfDistinct(reg, 0);
    IndexOfDistinct(reg, 1);
    IndexOfDistinct(reg, 2);
    IndexOfDistinct(reg, 3);
    IndexOfDistinct(reg, 4);
    IndexOfDistinct(reg, 5);
    IndexOfDistinct(reg, 6);
    IndexOfDistinct(reg, 7);
    IndexOfDistinct(reg, 8);
  }
}
