/**
 * The fixtures of src/test/utils.spec.ts, worked through the model: the
 * ascending first-name sort puts Aragorn first and the descending
 * last-name sort puts "The Grey" first.
 */
module Scenarios {
  import opened Wrappers
  import opened Sorting
  import opened Comparators
  import opened TableTypes

  /** A character record `{firstName, lastName}`. */
  function Character(first: string, last: string): Record
  {
    [Entry("firstName", first), Entry("lastName", last)]
  }

  /** The five characters of the fixture, in its order. */
  function Characters(): seq<Record>
  {
    [Character("Gimli", "Gloin"), Character("Legolas", "Greenleaf"), Character("Aragorn", "Elessar"),
     Character("Gandalf", "The Grey"), Character("Gimli", "Gloin")]
  }

  function FirstName(r: Record): string { Field(r, "firstName") }

  function LastName(r: Record): string { Field(r, "lastName") }

  lemma CharacterFields(first: string, last: string)
    ensures FirstName(Character(first, last)) == first
    ensures LastName(Character(first, last)) == last
  {
    var r := Character(first, last);
    assert r[0].key[0] == 'f';
    assert "firstName" != "lastName" by { assert "lastName"[0] == 'l'; }
    assert r[1..] == [Entry("lastName", last)];
    assert Lookup(r[1..], "lastName") == Some(last);
  }

  /** Texts whose upper-cased first letters differ are ordered by those letters. */
  lemma InitialDecides(a: string, b: string)
    requires |a| > 0 && |b| > 0 && UpperChar(a[0]) < UpperChar(b[0])
    ensures Less(Upper(a), Upper(b))
  {
    assert Upper(a)[0] == UpperChar(a[0]) && Upper(b)[0] == UpperChar(b[0]);
  }

  /** A first name with an earlier initial sorts first ascending. */
  lemma FirstNameBefore(f1: string, l1: string, f2: string, l2: string)
    requires |f1| > 0 && |f2| > 0 && UpperChar(f1[0]) < UpperChar(f2[0])
    ensures ByTextAscending(FirstName, Character(f1, l1), Character(f2, l2)) < 0
  {
    CharacterFields(f1, l1);
    CharacterFields(f2, l2);
    InitialDecides(f1, f2);
  }

  /** A last name with a later initial sorts first descending. */
  lemma LastNameBefore(f1: string, l1: string, f2: string, l2: string)
    requires |l1| > 0 && |l2| > 0 && UpperChar(l2[0]) < UpperChar(l1[0])
    ensures ByTextDescending(LastName, Character(f1, l1), Character(f2, l2)) < 0
  {
    CharacterFields(f1, l1);
    CharacterFields(f2, l2);
    InitialDecides(l2, l1);
  }

  /** Aragorn's first name comes before every other character's. */
  lemma AragornFirst(j: nat)
    requires j < |Characters()| && j != 2
    ensures ByTextAscending(FirstName, Characters()[2], Characters()[j]) < 0
  {
    if j == 1 {
      FirstNameBefore("Aragorn", "Elessar", "Legolas", "Greenleaf");
    } else if j == 3 {
      FirstNameBefore("Aragorn", "Elessar", "Gandalf", "The Grey");
    } else {
      FirstNameBefore("Aragorn", "Elessar", "Gimli", "Gloin");
    }
  }

  /** "The Grey" comes after every other character's last name. */
  lemma TheGreyLast(j: nat)
    requires j < |Characters()| && j != 3
    ensures ByTextDescending(LastName, Characters()[3], Characters()[j]) < 0
  {
    if j == 1 {
      LastNameBefore("Gandalf", "The Grey", "Legolas", "Greenleaf");
    } else if j == 2 {
      LastNameBefore("Gandalf", "The Grey", "Aragorn", "Elessar");
    } else {
      LastNameBefore("Gandalf", "The Grey", "Gimli", "Gloin");
    }
  }

  /** Sorting by `byTextAscending(c => c.firstName)` puts the third character first. */
  lemma AscendingFirstNameScenario()
    ensures var sorted := SortBy(Characters(), (a: Record, b: Record) => ByTextAscending(FirstName, a, b));
      |sorted| == 5 && sorted[0] == Characters()[2]
  {
    var cmp := (a: Record, b: Record) => ByTextAscending(FirstName, a, b);
    var cs := Characters();
    SortByLength(cs, cmp);
    forall j | 0 <= j < |cs| && j != 2
      ensures cmp(cs[2], cs[j]) < 0
    {
      AragornFirst(j);
    }
    AscendingIsOrdering(FirstName);
    SortByLeastFirst(cs, cmp, 2);
  }

  /** Sorting by `byTextDescending(c => c.lastName)` puts the fourth character first. */
  lemma DescendingLastNameScenario()
    ensures var sorted := SortBy(Characters(), (a: Record, b: Record) => ByTextDescending(LastName, a, b));
      |sorted| == 5 && sorted[0] == Characters()[3]
  {
    var cmp := (a: Record, b: Record) => ByTextDescending(LastName, a, b);
    var cs := Characters();
    SortByLength(cs, cmp);
    forall j | 0 <= j < |cs| && j != 3
      ensures cmp(cs[3], cs[j]) < 0
    {
      TheGreyLast(j);
    }
    DescendingIsOrdering(LastName);
    SortByLeastFirst(cs, cmp, 3);
  }
}
