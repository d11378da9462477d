/** The fixed table of hazard categories of the MLCommons taxonomy that the
    moderation model reports against. The app keeps it as a dictionary
    from code to label; a Python dictionary iterates in insertion order, so
    it is modelled as the sequence of its (code, label) pairs in that order,
    with distinct codes. */
module Taxonomy {

  datatype Category = Category(code: string, name: string)

  const SafetyCategories: seq<Category> := [
    Category("S1", "Violent Crimes"),
    Category("S2", "Non-Violent Crimes"),
    Category("S3", "Sex-Related Crimes"),
    Category("S4", "Child Sexual Exploitation"),
    Category("S5", "Defamation"),
    Category("S6", "Specialized Advice"),
    Category("S7", "Privacy"),
    Category("S8", "Intellectual Property"),
    Category("S9", "Indiscriminate Weapons"),
    Category("S10", "Hate"),
    Category("S11", "Suicide & Self-Harm"),
    Category("S12", "Sexual Content"),
    Category("S13", "Elections"),
    Category("S14", "Code Interpreter Abuse")
  ]

  /** A table that can stand for a dictionary keyed by code and whose
      rendered entries can be told apart: codes are distinct, non-empty
      and free of ':'. */
  ghost predicate WellFormed(table: seq<Category>) {
    && (forall i :: 0 <= i < |table| ==> table[i].code != [] && ':' !in table[i].code)
    && (forall i, j :: 0 <= i < j < |table| ==> table[i].code != table[j].code)
  }

  /** The codes are S followed by the category number: S1 to S9, then
      S1 followed by 0 to 4. */
  lemma CodeDigits(i: int)
    requires 0 <= i < |SafetyCategories|
    ensures SafetyCategories[i].code ==
      if i < 9 then ['S', ('1' as int + i) as char]
      else ['S', '1', ('0' as int + i - 9) as char]
  {
    assert i == 0 || i == 1 || i == 2 || i == 3 || i == 4 || i == 5 || i == 6
        || i == 7 || i == 8 || i == 9 || i == 10 || i == 11 || i == 12 || i == 13;
  }

  lemma SafetyCategoriesWellFormed()
    ensures |SafetyCategories| == 14
    ensures WellFormed(SafetyCategories)
  {
    forall i | 0 <= i < |SafetyCategories|
      ensures SafetyCategories[i].code != [] && ':' !in SafetyCategories[i].code
    {
      CodeDigits(i);
    }
    forall i, j | 0 <= i < j < |SafetyCategories|
      ensures SafetyCategories[i].code != SafetyCategories[j].code
    {
      CodeDigits(i);
      CodeDigits(j);
    }
  }

  /** Every code begins with the letter S. */
  lemma CodesBeginWithS(i: int)
    requires 0 <= i < |SafetyCategories|
    ensures SafetyCategories[i].code[0] == 'S'
  {
    CodeDigits(i);
  }

  /** The codes S10 to S14 all begin with the code S1. */
  lemma TwoDigitCodes(i: int)
    requires 9 <= i < |SafetyCategories|
    ensures SafetyCategories[0].code == "S1"
    ensures |SafetyCategories[i].code| == 3 && SafetyCategories[i].code[..2] == "S1"
  {
    CodeDigits(0);
    CodeDigits(i);
  }

  /** The line shown for a flagged category: "<code>: <name>". */
  function Entry(c: Category): (e: string)
    ensures |e| == |c.code| + 2 + |c.name|
    ensures e[..|c.code|] == c.code && e[|c.code| + 2..] == c.name
  {
    c.code + ": " + c.name
  }

  /** The entries of S1, S9 and S10. */
  lemma OneEntry()
    ensures Entry(SafetyCategories[0]) == "S1: Violent Crimes"
  {
    assert SafetyCategories[0] == Category("S1", "Violent Crimes");
    OneText();
  }

  lemma NineEntry()
    ensures Entry(SafetyCategories[8]) == "S9: Indiscriminate Weapons"
  {
    assert SafetyCategories[8] == Category("S9", "Indiscriminate Weapons");
    NineText();
  }

  lemma TenEntry()
    ensures Entry(SafetyCategories[9]) == "S10: Hate"
  {
    assert SafetyCategories[9] == Category("S10", "Hate");
    TenText();
  }

  lemma OneText()
    ensures Entry(Category("S1", "Violent Crimes")) == "S1: Violent Crimes"
  {
  }

  lemma NineText()
    ensures Entry(Category("S9", "Indiscriminate Weapons")) == "S9: Indiscriminate Weapons"
  {
  }

  lemma TenText()
    ensures Entry(Category("S10", "Hate")) == "S10: Hate"
  {
  }

  /** An entry determines its category when codes hold no ':'. */
  lemma EntryInjective(c: Category, d: Category)
    requires ':' !in c.code && ':' !in d.code
    ensures Entry(c) == Entry(d) <==> c == d
  {
    var e := Entry(c);
    if e == Entry(d) {
      // the first ':' of an entry ends its code
      assert forall k :: 0 <= k < |c.code| ==> e[k] == c.code[k];
      assert forall k :: 0 <= k < |d.code| ==> e[k] == d.code[k];
      assert e[|c.code|] == ':' && e[|d.code|] == ':';
      assert |c.code| == |d.code|;
      assert c.code == e[..|c.code|] == d.code;
      assert c.name == e[|c.code| + 2..] == d.name;
    }
  }
}
