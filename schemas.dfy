/**
 * Choosing the schema to anonymize: `list_schemas` drops MariaDB's system
 * schemas from `SHOW DATABASES`, and `select_schema` asks until an answer
 * names one of the rest, by its 1-based number or by its exact name.
 */
module Schemas {
  import opened Wrappers
  import opened Text

  /** The schemas `list_schemas` never offers. */
  const SystemSchemas: seq<string> := ["information_schema", "performance_schema", "mysql", "sys"]

  /** `[s for s in schemas if s not in system_dbs]`. */
  function UserSchemas(schemas: seq<string>): (r: seq<string>)
    ensures |r| <= |schemas|
    ensures forall i :: 0 <= i < |r| ==> r[i] !in SystemSchemas
  {
    if schemas == [] then []
    else
      var rest := UserSchemas(schemas[1..]);
      if schemas[0] in SystemSchemas then rest else [schemas[0]] + rest
  }

  /** The filter removes exactly the system schemas: every other name is kept as often as it occurs. */
  lemma {:induction false} UserSchemasKeeps(schemas: seq<string>)
    ensures forall s :: s in UserSchemas(schemas) <==> s in schemas && s !in SystemSchemas
    ensures forall s :: s !in SystemSchemas ==> multiset(UserSchemas(schemas))[s] == multiset(schemas)[s]
  {
    if schemas != [] {
      UserSchemasKeeps(schemas[1..]);
      assert schemas == [schemas[0]] + schemas[1..];
    }
  }

  /** The filter keeps order: filtering two lists one after the other is filtering each. */
  lemma {:induction false} UserSchemasAppend(a: seq<string>, b: seq<string>)
    ensures UserSchemas(a + b) == UserSchemas(a) + UserSchemas(b)
  {
    if a == [] {
      assert a + b == b;
    } else {
      assert (a + b)[0] == a[0];
      assert (a + b)[1..] == a[1..] + b;
      UserSchemasAppend(a[1..], b);
    }
  }

  /** The server listing of the unit test yields its two school schemas, in order. */
  lemma UserSchemasOfTestListing()
    ensures UserSchemas(["information_schema", "mysql", "schule_test", "schule_demo"]) == ["schule_test", "schule_demo"]
  {
    var listing := ["information_schema", "mysql", "schule_test", "schule_demo"];
    assert listing[1..] == ["mysql", "schule_test", "schule_demo"];
    assert listing[1..][1..] == ["schule_test", "schule_demo"];
    assert listing[1..][1..][1..] == ["schule_demo"];
    assert "schule_test" !in SystemSchemas && "schule_demo" !in SystemSchemas;
  }

  /**
   * One answer to the schema prompt, after `strip()`: a digit string is read
   * as a 1-based number and accepted only when in range (no name lookup
   * follows); any other answer is accepted only when it is exactly a listed name.
   */
  function ResolveChoice(answer: string, schemas: seq<string>): (r: Option<string>)
    ensures r.Some? ==> r.value in schemas
  {
    var choice := Strip(answer);
    if IsDigitString(choice) then
      var index := DigitsValue(choice) - 1;
      if 0 <= index < |schemas| then Some(schemas[index]) else None
    else if choice in schemas then Some(choice)
    else None
  }

  /** The number `n`, written in decimal, selects the `n`-th schema. */
  lemma ChoiceByNumber(schemas: seq<string>, n: nat)
    requires 1 <= n <= |schemas|
    ensures ResolveChoice(DecimalString(n), schemas) == Some(schemas[n - 1])
  {
    var s := DecimalString(n);
    assert TrimLeft(s) == s;
    assert TrimRight(s) == s;
    DecimalStringRoundTrip(n);
  }

  /** Any digit answer in `1..|schemas|`, with leading zeros or surrounding whitespace, selects the schema at that position. */
  lemma ChoiceByDigits(answer: string, schemas: seq<string>)
    requires IsDigitString(Strip(answer)) && 1 <= DigitsValue(Strip(answer)) <= |schemas|
    ensures ResolveChoice(answer, schemas) == Some(schemas[DigitsValue(Strip(answer)) - 1])
  {
  }

  /** A digit answer outside `1..|schemas|` is refused, even when it is itself a schema name. */
  lemma ChoiceDigitsOutOfRange(answer: string, schemas: seq<string>)
    requires IsDigitString(Strip(answer))
    requires !(1 <= DigitsValue(Strip(answer)) <= |schemas|)
    ensures ResolveChoice(answer, schemas) == None
  {
  }

  /** The answer `0` is refused whatever the schemas, even when a schema is named `0`. */
  lemma ZeroIsRefused(answer: string, schemas: seq<string>)
    requires Strip(answer) == "0"
    ensures ResolveChoice(answer, schemas) == None
  {
    assert IsDigitString("0");
    assert DigitsValue("0") == DigitsValue("") * 10 + DigitValue('0');
  }

  /** An answer that is not a digit string is accepted exactly when it is a listed name, and then names itself. */
  lemma ChoiceByName(answer: string, schemas: seq<string>)
    requires !IsDigitString(Strip(answer))
    ensures ResolveChoice(answer, schemas).Some? <==> Strip(answer) in schemas
    ensures ResolveChoice(answer, schemas).Some? ==> ResolveChoice(answer, schemas).value == Strip(answer)
  {
  }

  /** How `select_schema` ends. */
  datatype SchemaChoice =
    | NoSchemas                           // nothing left after the filter: exit status 1
    | Chosen(schema: string, answer: nat) // the index of the answer that chose it
    | AnswersExhausted                    // `input()` has no further answer to give

  /**
   * `select_schema`: list the user schemas; with none, give up; otherwise
   * read answers until one resolves, as `ResolveChoice` decides. `listing` is what `SHOW DATABASES`
   * returned and `answers` the successive lines typed at the prompt.
   */
  method SelectSchema(listing: seq<string>, answers: seq<string>) returns (outcome: SchemaChoice)
    ensures outcome.NoSchemas? <==> UserSchemas(listing) == []
    ensures outcome.Chosen? ==>
      && outcome.answer < |answers|
      && ResolveChoice(answers[outcome.answer], UserSchemas(listing)) == Some(outcome.schema)
      && forall k :: 0 <= k < outcome.answer ==> ResolveChoice(answers[k], UserSchemas(listing)).None?
    ensures outcome.AnswersExhausted? ==>
      forall k :: 0 <= k < |answers| ==> ResolveChoice(answers[k], UserSchemas(listing)).None?
  {
    var schemas := UserSchemas(listing);
    if schemas == [] {
      return NoSchemas;
    }
    var k := 0;
    while k < |answers|
      invariant 0 <= k <= |answers|
      invariant forall m :: 0 <= m < k ==> ResolveChoice(answers[m], schemas).None?
    {
      var choice := ResolveChoice(answers[k], schemas);
      if choice.Some? {
        return Chosen(choice.value, k);
      }
      k := k + 1;
    }
    outcome := AnswersExhausted;
  }
}
