/**
 * The expansion example of src/test/extension.test.ts:60-72, evaluated on
 * the model of buildVarsObject.
 */
module ExpansionExamples {
  import opened Chars
  import opened Modifiers
  import opened Expansion
  import opened CaseExamples
  import CT = CaseTransforms

  /** The expansion test of src/test/extension.test.ts:60-72. */
  lemma BuildVarsExample(input: string)
    requires input == "my super-name"
    ensures var v := Expand([("name", input)], ExtensionModifiers());
      "name" in v && v["name"] == input &&
      "name.pascalCase" in v && v["name.pascalCase"] == "MySuperName" &&
      "name.camelCase" in v && v["name.camelCase"] == "mySuperName" &&
      "name.snakeCase" in v && v["name.snakeCase"] == "my_super_name" &&
      "name.kebabCase" in v && v["name.kebabCase"] == "my-super-name" &&
      "name.screamingSnakeCase" in v && v["name.screamingSnakeCase"] == "MY_SUPER_NAME" &&
      "name.upperCase" in v && v["name.upperCase"] == "My super-name" &&
      "name.lowerCase" in v && v["name.lowerCase"] == "my super-name" &&
      "name.upperCaseAll" in v && v["name.upperCaseAll"] == "MYSUPERNAME" &&
      "name.lowerCaseAll" in v && v["name.lowerCaseAll"] == "mysupername"
  {
    var u := [("name", input)];
    var reg := ExtensionModifiers();
    RegistryNames(ChangeCaseLib(CT.ToCamelCase, CT.ToPascalCase, CT.ToSnakeCase, CT.ToKebabCase,
                                CT.ToScreamingSnakeCase, CT.ToUpperCaseFirst, CT.ToLowerCase));
    assert DotFree(u[0].0);
    assert ToMap(u) == map["name" := input];
    ExpandPlainKey(u, reg, "name");
    MySuperNameExamples(input);
    forall k | 0 <= k < 9
      ensures Key("name", reg[k].name) in Expand(u, reg)
      ensures Expand(u, reg)[Key("name", reg[k].name)] == reg[k].transform(input)
    {
      ExpandModifiedKey(u, reg, "name", k);
    }
    ExampleKeys();
  }

  lemma ExampleKeys()
    ensures Key("name", ModifierNames[0]) == "name.pascalCase"
    ensures Key("name", ModifierNames[1]) == "name.camelCase"
    ensures Key("name", ModifierNames[2]) == "name.snakeCase"
    ensures Key("name", ModifierNames[3]) == "name.kebabCase"
    ensures Key("name", ModifierNames[4]) == "name.screamingSnakeCase"
    ensures Key("name", ModifierNames[5]) == "name.upperCase"
    ensures Key("name", ModifierNames[6]) == "name.lowerCase"
    ensures Key("name", ModifierNames[7]) == "name.upperCaseAll"
    ensures Key("name", ModifierNames[8]) == "name.lowerCaseAll"
  {
  }
}
