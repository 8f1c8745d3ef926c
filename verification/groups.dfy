/**
 * The colour group of a bean, decided by the first prefix rule its name
 * matches.
 */
module Groups {

  /** `String.prototype.startsWith`. */
  predicate StartsWith(s: string, prefix: string)
  {
    |prefix| <= |s| && s[..|prefix|] == prefix
  }

  /** The group of placeholder nodes, which no bean name is mapped to. */
  const PlaceholderGroup: int := 0

  /**
   * `groupMapper`: "org.springframework" names are group 2, other "org."
   * names 3, "com." names 4, and every other name 1.
   */
  function GroupMapper(name: string): (g: int)
    ensures 1 <= g <= 4
  {
    if StartsWith(name, "org.springframework") then 2
    else if StartsWith(name, "org.") then 3
    else if StartsWith(name, "com.") then 4
    else 1
  }

  /**
   * The rules are tried in order and the first match wins: each group is
   * characterised by the prefixes its names have and do not have.
   */
  lemma GroupMapperRules(name: string)
    ensures GroupMapper(name) == 2 <==> StartsWith(name, "org.springframework")
    ensures GroupMapper(name) == 3 <==> StartsWith(name, "org.") && !StartsWith(name, "org.springframework")
    ensures GroupMapper(name) == 4 <==> StartsWith(name, "com.")
    ensures GroupMapper(name) == 1 <==> !StartsWith(name, "org.") && !StartsWith(name, "com.")
  {
    if StartsWith(name, "org.springframework") {
      assert name[..4] == name[..|"org.springframework"|][..4];
    } else if StartsWith(name, "org.") {
      assert name[0] == name[..4][0];
    }
  }

  /** The classification of the four sample names in the documented examples. */
  lemma GroupMapperExamples()
    ensures GroupMapper("org.springframework.context.Foo") == 2
    ensures GroupMapper("org.other.Bar") == 3
    ensures GroupMapper("com.acme.Baz") == 4
    ensures GroupMapper("acme.Baz") == 1
  {
    var company := "com.acme.Baz";
    assert company[..4][0] == 'c';
    var plain := "acme.Baz";
    assert plain[..4][0] == 'a';
  }
}
