/**
 * The anonymization rule table of `SVWSAnonymizer._get_anonymization_rules`:
 * an ordered list of (column-name pattern, value generator) pairs, and the
 * first-match lookup that `_anonymize_table` performs on it.
 */
module Rules {
  import opened Wrappers
  import opened Text

  /** Which fake value a rule produces; the generators themselves (Faker, `random`) are not modelled. */
  datatype Generator =
    | LastName      // fake.last_name()
    | FirstName     // fake.first_name()
    | Email         // fake.email()
    | PhoneNumber   // fake.phone_number()
    | StreetName    // fake.street_name()
    | HouseNumber   // str(random.randint(1, 999))
    | Postcode      // fake.postcode()
    | City          // fake.city()
    | BirthDate     // fake.date_of_birth(minimum_age=6, maximum_age=80) as YYYY-MM-DD
    | Fixed(text: string)

  /** One entry of the rule dictionary; each entry's lambda is a distinct object, so a rule is identified by its pattern. */
  datatype Rule = Rule(pattern: string, generator: Generator)

  /** The replacement text for free-text columns. */
  const Anonymized: string := "Anonymisiert"

  /** What calling a rule's lambda returns: its fixed text, or else `drawn`, the value its generator produced. */
  function Produce(g: Generator, drawn: string): string {
    match g
    case Fixed(text) => text
    case _ => drawn
  }

  /** The rule dictionary in insertion order, which is the order Python iterates it in. */
  const AnonymizationRules: seq<Rule> := [
    // names
    Rule("nachname", LastName),
    Rule("vorname", FirstName),
    Rule("name", LastName),
    Rule("familienname", LastName),
    Rule("rufname", FirstName),
    // contact information
    Rule("email", Email),
    Rule("e_mail", Email),
    Rule("telefon", PhoneNumber),
    Rule("telefonnummer", PhoneNumber),
    Rule("handy", PhoneNumber),
    Rule("mobilnummer", PhoneNumber),
    // address information
    Rule("strasse", StreetName),
    Rule("strassenname", StreetName),
    Rule("hausnummer", HouseNumber),
    Rule("plz", Postcode),
    Rule("postleitzahl", Postcode),
    Rule("ort", City),
    Rule("wohnort", City),
    Rule("stadt", City),
    // personal information
    Rule("geburtsdatum", BirthDate),
    Rule("geburtsort", City),
    Rule("geburtsname", LastName),
    // other sensitive data
    Rule("bemerkung", Fixed(Anonymized)),
    Rule("kommentar", Fixed(Anonymized)),
    Rule("notiz", Fixed(Anonymized))
  ]

  /**
   * The index of the first rule whose pattern occurs in `name`, as the inner
   * loop over `rules.items()` with its `break` finds it; `None` when no pattern occurs.
   */
  function FirstMatch(name: string, rules: seq<Rule>): (r: Option<nat>)
    ensures r.Some? ==> r.value < |rules| && Contains(name, rules[r.value].pattern)
    ensures r.Some? ==> forall k :: 0 <= k < r.value ==> !Contains(name, rules[k].pattern)
    ensures r.None? ==> forall k :: 0 <= k < |rules| ==> !Contains(name, rules[k].pattern)
  {
    if rules == [] then None
    else if Contains(name, rules[0].pattern) then Some(0)
    else match FirstMatch(name, rules[1..])
      case None => None
      case Some(i) => Some(i + 1)
  }

  /** A name matches some rule exactly when some pattern occurs in it. */
  predicate Matches(name: string, rules: seq<Rule>) {
    exists k :: 0 <= k < |rules| && Contains(name, rules[k].pattern)
  }

  /** The first match is determined by the two properties that a pattern occurs and no earlier one does. */
  lemma FirstMatchIsEarliest(name: string, rules: seq<Rule>, k: nat)
    requires k < |rules| && Contains(name, rules[k].pattern)
    requires forall m :: 0 <= m < k ==> !Contains(name, rules[m].pattern)
    ensures FirstMatch(name, rules) == Some(k)
  {
  }

  /** A rule whose pattern contains an earlier rule's pattern is never the first match, whatever the name. */
  lemma Shadowed(rules: seq<Rule>, i: nat, j: nat, name: string)
    requires i < j < |rules|
    requires Contains(rules[j].pattern, rules[i].pattern)
    ensures FirstMatch(name, rules) != Some(j)
  {
    if FirstMatch(name, rules) == Some(j) {
      ContainsTransitive(name, rules[j].pattern, rules[i].pattern);
      assert false;
    }
  }

  /**
   * A lower-case rule is the first match for some column, whose name is
   * lower-cased before matching, exactly when no earlier pattern occurs in
   * its own pattern.
   */
  lemma ReachableIff(rules: seq<Rule>, j: nat)
    requires j < |rules|
    requires IsLowerCase(rules[j].pattern)
    ensures (exists field :: FirstMatch(Lower(field), rules) == Some(j))
        <==> (forall i :: 0 <= i < j ==> !Contains(rules[j].pattern, rules[i].pattern))
  {
    var p := rules[j].pattern;
    if forall i :: 0 <= i < j ==> !Contains(p, rules[i].pattern) {
      assert OccursAt(p, p, 0);
      ContainsIff(p, p);
      LowerOfLowerCase(p);
      FirstMatchIsEarliest(Lower(p), rules, j);
    }
    if exists field :: FirstMatch(Lower(field), rules) == Some(j) {
      var field :| FirstMatch(Lower(field), rules) == Some(j);
      var name := Lower(field);
      forall i | 0 <= i < j ensures !Contains(p, rules[i].pattern) {
        if Contains(p, rules[i].pattern) {
          Shadowed(rules, i, j, name);
        }
      }
    }
  }

  /** The name patterns are lower case. */
  lemma NamesPatternsLowerCase()
    ensures forall i :: 0 <= i < 5 ==> IsLowerCase(AnonymizationRules[i].pattern)
  {
    assert IsLowerCase(AnonymizationRules[0].pattern);
    assert IsLowerCase(AnonymizationRules[1].pattern);
    assert IsLowerCase(AnonymizationRules[2].pattern);
    assert IsLowerCase(AnonymizationRules[3].pattern);
    assert IsLowerCase(AnonymizationRules[4].pattern);
  }

  /** The first contact patterns are lower case. */
  lemma ContactPatternsLowerCase()
    ensures forall i :: 5 <= i < 8 ==> IsLowerCase(AnonymizationRules[i].pattern)
  {
    assert IsLowerCase(AnonymizationRules[5].pattern);
    assert IsLowerCase(AnonymizationRules[6].pattern);
    assert IsLowerCase(AnonymizationRules[7].pattern);
  }

  /** The remaining contact patterns are lower case. */
  lemma PhonePatternsLowerCase()
    ensures forall i :: 8 <= i < 11 ==> IsLowerCase(AnonymizationRules[i].pattern)
  {
    assert IsLowerCase(AnonymizationRules[8].pattern);
    assert IsLowerCase(AnonymizationRules[9].pattern);
    assert IsLowerCase(AnonymizationRules[10].pattern);
  }

  /** The first address patterns are lower case. */
  lemma StreetPatternsLowerCase()
    ensures forall i :: 11 <= i < 15 ==> IsLowerCase(AnonymizationRules[i].pattern)
  {
    assert IsLowerCase(AnonymizationRules[11].pattern);
    assert IsLowerCase(AnonymizationRules[12].pattern);
    assert IsLowerCase(AnonymizationRules[13].pattern);
    assert IsLowerCase(AnonymizationRules[14].pattern);
  }

  /** The remaining address patterns are lower case. */
  lemma PlacePatternsLowerCase()
    ensures forall i :: 15 <= i < 19 ==> IsLowerCase(AnonymizationRules[i].pattern)
  {
    assert IsLowerCase(AnonymizationRules[15].pattern);
    assert IsLowerCase(AnonymizationRules[16].pattern);
    assert IsLowerCase(AnonymizationRules[17].pattern);
    assert IsLowerCase(AnonymizationRules[18].pattern);
  }

  /** The personal information patterns are lower case. */
  lemma PersonalPatternsLowerCase()
    ensures forall i :: 19 <= i < 22 ==> IsLowerCase(AnonymizationRules[i].pattern)
  {
    assert IsLowerCase(AnonymizationRules[19].pattern);
    assert IsLowerCase(AnonymizationRules[20].pattern);
    assert IsLowerCase(AnonymizationRules[21].pattern);
  }

  /** The free-text patterns are lower case. */
  lemma OtherPatternsLowerCase()
    ensures forall i :: 22 <= i < 25 ==> IsLowerCase(AnonymizationRules[i].pattern)
  {
    assert IsLowerCase(AnonymizationRules[22].pattern);
    assert IsLowerCase(AnonymizationRules[23].pattern);
    assert IsLowerCase(AnonymizationRules[24].pattern);
  }

  /** Every pattern of the table is lower case, so each is matched as written. */
  lemma PatternsLowerCase()
    ensures forall i :: 0 <= i < |AnonymizationRules| ==> IsLowerCase(AnonymizationRules[i].pattern)
  {
    NamesPatternsLowerCase();
    ContactPatternsLowerCase();
    PhonePatternsLowerCase();
    StreetPatternsLowerCase();
    PlacePatternsLowerCase();
    PersonalPatternsLowerCase();
    OtherPatternsLowerCase();
  }

  /** The only fixed values in the table are the free-text rules, and they all write `Anonymisiert`. */
  lemma FixedRulesAnonymized()
    ensures forall i :: 0 <= i < |AnonymizationRules| && AnonymizationRules[i].generator.Fixed? ==>
      22 <= i && AnonymizationRules[i].generator.text == Anonymized
    ensures forall i :: 22 <= i < |AnonymizationRules| ==> AnonymizationRules[i].generator == Fixed(Anonymized)
  {
  }

  /** `familienname`, `rufname` and `geburtsname` contain `name`. */
  lemma NameContained()
    ensures Contains(AnonymizationRules[3].pattern, AnonymizationRules[2].pattern)
    ensures Contains(AnonymizationRules[4].pattern, AnonymizationRules[2].pattern)
    ensures Contains(AnonymizationRules[21].pattern, AnonymizationRules[2].pattern)
  {
    assert OccursAt("familienname", "name", 8);
    assert OccursAt("rufname", "name", 3);
    assert OccursAt("geburtsname", "name", 7);
    ContainsIff("familienname", "name");
    ContainsIff("rufname", "name");
    ContainsIff("geburtsname", "name");
  }

  /** `telefonnummer` contains `telefon`, and `strassenname` contains `strasse`. */
  lemma PrefixContained()
    ensures Contains(AnonymizationRules[8].pattern, AnonymizationRules[7].pattern)
    ensures Contains(AnonymizationRules[12].pattern, AnonymizationRules[11].pattern)
  {
    assert OccursAt("telefonnummer", "telefon", 0);
    assert OccursAt("strassenname", "strasse", 0);
    ContainsIff("telefonnummer", "telefon");
    ContainsIff("strassenname", "strasse");
  }

  /** `wohnort` and `geburtsort` contain `ort`. */
  lemma OrtContained()
    ensures Contains(AnonymizationRules[17].pattern, AnonymizationRules[16].pattern)
    ensures Contains(AnonymizationRules[20].pattern, AnonymizationRules[16].pattern)
  {
    assert OccursAt("wohnort", "ort", 4);
    assert OccursAt("geburtsort", "ort", 7);
    ContainsIff("wohnort", "ort");
    ContainsIff("geburtsort", "ort");
  }

  /**
   * Seven patterns of the table can never be chosen: `familienname`, `rufname`,
   * `geburtsname` and `strassenname` contain `name`, `telefonnummer` contains
   * `telefon`, and `wohnort` and `geburtsort` contain `ort`.
   */
  lemma ShadowedPatterns(name: string)
    ensures forall j :: j in {3, 4, 8, 12, 17, 20, 21} ==> FirstMatch(name, AnonymizationRules) != Some(j)
  {
    var rules := AnonymizationRules;
    NameContained();
    PrefixContained();
    OrtContained();
    Shadowed(rules, 2, 3, name);
    Shadowed(rules, 2, 4, name);
    Shadowed(rules, 7, 8, name);
    Shadowed(rules, 11, 12, name);
    Shadowed(rules, 16, 17, name);
    Shadowed(rules, 16, 20, name);
    Shadowed(rules, 2, 21, name);
  }
}
