/**
 * Which columns of a table `_anonymize_table` rewrites: every column whose
 * lower-cased name contains some rule pattern, bound to the first such rule.
 */
module Columns {
  import opened Wrappers
  import opened Text
  import opened Rules

  /** A selected column: its name as `DESCRIBE` reports it, and the rule it is bound to. */
  datatype Binding = Binding(field: string, rule: Rule)

  /** The binding of one column, if any pattern occurs in its lower-cased name. */
  function Bind(field: string, rules: seq<Rule>): Option<Binding> {
    match FirstMatch(Lower(field), rules)
    case None => None
    case Some(i) => Some(Binding(field, rules[i]))
  }

  /** The selection for the columns `fields`, in `DESCRIBE` order. */
  function Selection(fields: seq<string>, rules: seq<Rule>): seq<Binding> {
    if fields == [] then []
    else
      var rest := Selection(fields[..|fields| - 1], rules);
      match Bind(fields[|fields| - 1], rules)
      case None => rest
      case Some(b) => rest + [b]
  }

  /** The names of the selected columns. */
  function FieldsOf(selected: seq<Binding>): (names: seq<string>)
    ensures |names| == |selected|
    ensures forall i :: 0 <= i < |selected| ==> names[i] == selected[i].field
  {
    seq(|selected|, i requires 0 <= i < |selected| => selected[i].field)
  }

  /**
   * The column-matching loop: for each column, try the rules in order and
   * append the column with the first rule whose pattern occurs in its
   * lower-cased name, then stop trying rules for that column.
   */
  method SelectColumns(fields: seq<string>, rules: seq<Rule>) returns (selected: seq<Binding>)
    ensures selected == Selection(fields, rules)
  {
    selected := [];
    var c := 0;
    while c < |fields|
      invariant 0 <= c <= |fields|
      invariant selected == Selection(fields[..c], rules)
    {
      assert fields[..c + 1][..c] == fields[..c];
      var name := Lower(fields[c]);
      ghost var before := selected;
      var k := 0;
      while k < |rules|
        invariant 0 <= k <= |rules|
        invariant selected == before
        invariant forall m :: 0 <= m < k ==> !Contains(name, rules[m].pattern)
      {
        if Contains(name, rules[k].pattern) {
          selected := selected + [Binding(fields[c], rules[k])];
          FirstMatchIsEarliest(name, rules, k);
          break;
        }
        k := k + 1;
      }
      c := c + 1;
    }
    assert fields[..c] == fields;
  }

  /** Every selected column is a column of the table, bound to the earliest rule its lower-cased name matches; the original spelling of the name is kept. */
  lemma {:induction false} SelectionSound(fields: seq<string>, rules: seq<Rule>)
    ensures forall b :: b in Selection(fields, rules) ==>
      b.field in fields && exists i :: FirstMatch(Lower(b.field), rules) == Some(i) && b.rule == rules[i]
  {
    if fields != [] {
      var init := fields[..|fields| - 1];
      SelectionSound(init, rules);
      forall b | b in Selection(fields, rules)
        ensures b.field in fields && exists i :: FirstMatch(Lower(b.field), rules) == Some(i) && b.rule == rules[i]
      {
        if b in Selection(init, rules) {
          assert b.field in init;
        }
      }
    }
  }

  /** Every column whose lower-cased name contains some pattern is selected. */
  lemma {:induction false} SelectionComplete(fields: seq<string>, rules: seq<Rule>)
    ensures forall f :: f in fields && Matches(Lower(f), rules) ==> f in FieldsOf(Selection(fields, rules))
  {
    if fields != [] {
      var init := fields[..|fields| - 1];
      var last := fields[|fields| - 1];
      SelectionComplete(init, rules);
      forall f | f in fields && Matches(Lower(f), rules)
        ensures f in FieldsOf(Selection(fields, rules))
      {
        var sel := Selection(fields, rules);
        var k :| 0 <= k < |rules| && Contains(Lower(f), rules[k].pattern);
        if f == last {
          assert FirstMatch(Lower(last), rules).Some?;
          assert sel[|sel| - 1].field == f;
        } else {
          assert f in init;
          var j :| 0 <= j < |FieldsOf(Selection(init, rules))| && FieldsOf(Selection(init, rules))[j] == f;
          assert sel[j] == Selection(init, rules)[j];
        }
      }
    }
  }

  /** A column is selected exactly when some pattern occurs in its lower-cased name. */
  lemma SelectedIff(fields: seq<string>, rules: seq<Rule>, f: string)
    requires f in fields
    ensures f in FieldsOf(Selection(fields, rules)) <==> Matches(Lower(f), rules)
  {
    SelectionSound(fields, rules);
    SelectionComplete(fields, rules);
    var names := FieldsOf(Selection(fields, rules));
    if f in names {
      var j :| 0 <= j < |names| && names[j] == f;
      var b := Selection(fields, rules)[j];
      assert b in Selection(fields, rules);
      var i :| FirstMatch(Lower(b.field), rules) == Some(i) && b.rule == rules[i];
    }
  }

  /** Selection works column by column: selecting from two lists of columns is selecting from each, in order. */
  lemma {:induction false} SelectionAppend(a: seq<string>, b: seq<string>, rules: seq<Rule>)
    ensures Selection(a + b, rules) == Selection(a, rules) + Selection(b, rules)
    decreases |b|
  {
    if b == [] {
      assert a + b == a;
    } else {
      var init := b[..|b| - 1];
      SelectionAppend(a, init, rules);
      assert (a + b)[..|a + b| - 1] == a + init;
      assert (a + b)[|a + b| - 1] == b[|b| - 1];
    }
  }

  /** No two entries of `names` are equal. */
  predicate Distinct(names: seq<string>) {
    forall i, j :: 0 <= i < j < |names| ==> names[i] != names[j]
  }

  /** Columns with distinct names give a selection with distinct names: no column is bound twice. */
  lemma {:induction false} SelectionAtMostOnce(fields: seq<string>, rules: seq<Rule>)
    requires Distinct(fields)
    ensures Distinct(FieldsOf(Selection(fields, rules)))
  {
    if fields != [] {
      var init := fields[..|fields| - 1];
      var last := fields[|fields| - 1];
      SelectionAtMostOnce(init, rules);
      SelectionSound(init, rules);
      var rest := Selection(init, rules);
      match Bind(last, rules)
      case None =>
        assert Selection(fields, rules) == rest;
      case Some(bound) =>
        assert Selection(fields, rules) == rest + [bound];
        forall i | 0 <= i < |rest| ensures rest[i].field != last {
          assert rest[i] in rest;
        }
    }
  }

  /**
   * A column whose name contains `rufname` (but neither `nachname` nor
   * `vorname`) is bound to `name` and so gets a fake last name, not the
   * first name its own rule would give.
   */
  lemma RufnameGetsLastName(field: string)
    requires Contains(Lower(field), "rufname")
    requires !Contains(Lower(field), "nachname") && !Contains(Lower(field), "vorname")
    ensures Bind(field, AnonymizationRules) == Some(Binding(field, Rule("name", LastName)))
  {
    var name := Lower(field);
    assert OccursAt("rufname", "name", 3);
    ContainsIff("rufname", "name");
    ContainsTransitive(name, "rufname", "name");
    FirstMatchIsEarliest(name, AnonymizationRules, 2);
  }

  /**
   * Any column whose name contains `ort`, such as `Wohnort`, `Geburtsort` or
   * `Sortierung`, is selected and bound to `ort` or an earlier rule, so never
   * to `wohnort` or `geburtsort`.
   */
  lemma OrtColumnsSelected(field: string)
    requires Contains(Lower(field), "ort")
    ensures Bind(field, AnonymizationRules).Some?
    ensures FirstMatch(Lower(field), AnonymizationRules).Some? && FirstMatch(Lower(field), AnonymizationRules).value <= 16
  {
    assert AnonymizationRules[16].pattern == "ort";
  }

  /** A column named `ID` matches no rule and is left alone. */
  lemma IdNotSelected()
    ensures Bind("ID", AnonymizationRules) == None
  {
    var name := Lower("ID");
    assert name == "id";
    forall m | 0 <= m < |AnonymizationRules| ensures !Contains(name, AnonymizationRules[m].pattern) {
      ContainsIff(name, AnonymizationRules[m].pattern);
    }
  }
}
