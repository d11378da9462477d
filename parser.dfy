/** The reply parser of the safety checker (parse_response): it turns the
    moderation model's free-text reply into a verdict and, for an unsafe
    reply, the list of hazard categories whose code occurs in the reply. */
module ResponseParser {
  import opened Text
  import opened Taxonomy

  datatype Option<T> = None | Some(value: T)

  /** The two verdict strings the parser returns, "Safe" and "Unsafe". */
  datatype Verdict = Safe | Unsafe

  /** The pair (verdict, categories) the parser returns; categories is
      None for a safe reply and a list otherwise. */
  datatype Outcome = Outcome(verdict: Verdict, categories: Option<seq<string>>)

  /** The verdict test on the stripped reply: it starts with "safe" once
      lower-cased. */
  predicate IsSafeReply(reply: string) {
    StartsWith(Lower(reply), "safe")
  }

  /** Reference reading of the verdict test, character by character. */
  ghost predicate BeginsWithSafe(reply: string) {
    && |reply| >= 4
    && reply[0] in "sS" && reply[1] in "aA" && reply[2] in "fF" && reply[3] in "eE"
  }

  /** The entries, in table order, of those of the first n categories of
      the table whose code occurs in text. */
  function Flagged(text: string, table: seq<Category>, n: nat): (r: seq<string>)
    requires n <= |table|
    ensures |r| <= n
  {
    if n == 0 then []
    else
      Flagged(text, table, n - 1)
        + (if Contains(text, table[n - 1].code) then [Entry(table[n - 1])] else [])
  }

  /** What parse_response returns for a reply. */
  function Parse(response: string): (o: Outcome)
    ensures o.verdict == Safe <==> o.categories.None?
  {
    var reply := Strip(response);
    if IsSafeReply(reply) then Outcome(Safe, None)
    else Outcome(Unsafe, Some(Flagged(reply, SafetyCategories, |SafetyCategories|)))
  }

  /** parse_response: an early return for a safe reply, otherwise one pass
      over the table that appends the entry of every code found. */
  method ParseResponse(response: string) returns (outcome: Outcome)
    ensures outcome == Parse(response)
  {
    var reply := Strip(response);
    if IsSafeReply(reply) {
      return Outcome(Safe, None);
    }
    var categories := CollectCategories(reply, SafetyCategories);
    return Outcome(Unsafe, Some(categories));
  }

  /** The loop of parse_response over the table, in table order. */
  method CollectCategories(reply: string, table: seq<Category>) returns (categories: seq<string>)
    ensures categories == Flagged(reply, table, |table|)
  {
    categories := [];
    for i := 0 to |table|
      invariant categories == Flagged(reply, table, i)
    {
      var category := table[i];
      if Contains(reply, category.code) {
        categories := categories + [Entry(category)];
      }
    }
  }

  // ---------------------------------------------------------------------
  // The scan over any table

  /** Every flagged entry is the entry of a scanned category whose code occurs. */
  lemma {:induction false} FlaggedSound(text: string, table: seq<Category>, n: nat, e: string)
    requires n <= |table| && e in Flagged(text, table, n)
    ensures exists i :: 0 <= i < n && e == Entry(table[i]) && Contains(text, table[i].code)
  {
    if e in Flagged(text, table, n - 1) {
      FlaggedSound(text, table, n - 1, e);
    } else {
      assert e == Entry(table[n - 1]) && Contains(text, table[n - 1].code);
    }
  }

  /** Every scanned category whose code occurs is flagged. */
  lemma {:induction false} FlaggedComplete(text: string, table: seq<Category>, n: nat, i: int)
    requires 0 <= i < n <= |table| && Contains(text, table[i].code)
    ensures Entry(table[i]) in Flagged(text, table, n)
  {
    if i < n - 1 {
      FlaggedComplete(text, table, n - 1, i);
    }
  }

  /** A text in which no scanned code occurs flags nothing. */
  lemma {:induction false} FlaggedNothing(text: string, table: seq<Category>, n: nat)
    requires n <= |table|
    requires forall i :: 0 <= i < n ==> !Contains(text, table[i].code)
    ensures Flagged(text, table, n) == []
  {
    if n > 0 {
      FlaggedNothing(text, table, n - 1);
    }
  }

  /** In a well-formed table, a category not yet scanned has no entry in
      the list so far. */
  lemma FlaggedNotYet(text: string, table: seq<Category>, n: nat, j: int)
    requires WellFormed(table) && n <= j < |table|
    ensures Entry(table[j]) !in Flagged(text, table, n)
  {
    if Entry(table[j]) in Flagged(text, table, n) {
      FlaggedSound(text, table, n, Entry(table[j]));
      var i :| 0 <= i < n && Entry(table[j]) == Entry(table[i]) && Contains(text, table[i].code);
      EntryInjective(table[i], table[j]);
    }
  }

  /** A well-formed table never yields the same entry twice. */
  lemma {:induction false} FlaggedDistinct(text: string, table: seq<Category>, n: nat)
    requires WellFormed(table) && n <= |table|
    ensures forall p, q :: 0 <= p < q < |Flagged(text, table, n)|
                           ==> Flagged(text, table, n)[p] != Flagged(text, table, n)[q]
  {
    if n > 0 {
      var f := Flagged(text, table, n);
      var prev := Flagged(text, table, n - 1);
      FlaggedDistinct(text, table, n - 1);
      FlaggedNotYet(text, table, n - 1, n - 1);
      forall p, q | 0 <= p < q < |f| ensures f[p] != f[q] {
        assert f[p] == prev[p];
        if q < |prev| {
          assert f[q] == prev[q];
        } else {
          assert f[q] == Entry(table[n - 1]);
        }
      }
    }
  }

  /** Entries come in table order, whatever order the codes have in text:
      the entry of an earlier category sits at an earlier position. */
  lemma {:induction false} FlaggedTableOrder(text: string, table: seq<Category>, n: nat,
                                             i: int, j: int, p: int, q: int)
    requires WellFormed(table) && 0 <= i < j < n <= |table|
    requires 0 <= p < |Flagged(text, table, n)| && Flagged(text, table, n)[p] == Entry(table[i])
    requires 0 <= q < |Flagged(text, table, n)| && Flagged(text, table, n)[q] == Entry(table[j])
    ensures p < q
  {
    var f := Flagged(text, table, n);
    var prev := Flagged(text, table, n - 1);
    EntryInjective(table[i], table[n - 1]);
    assert p < |prev| && f[p] == prev[p];
    if j < n - 1 {
      EntryInjective(table[j], table[n - 1]);
      assert q < |prev| && f[q] == prev[q];
      FlaggedTableOrder(text, table, n - 1, i, j, p, q);
    } else {
      FlaggedNotYet(text, table, n - 1, n - 1);
      assert q == |prev|;
    }
  }

  // ---------------------------------------------------------------------
  // The parser

  /** The verdict test is a case-insensitive match of "safe" at the start. */
  lemma SafeReplyIgnoresCase(reply: string)
    ensures IsSafeReply(reply) <==> BeginsWithSafe(reply)
  {
    var l := Lower(reply);
    if |reply| >= 4 {
      assert l[..4] == [l[0], l[1], l[2], l[3]];
    }
  }

  /** A reply is safe exactly when its stripped text begins with "safe" in
      any case; a safe reply carries no list, any other reply a list. */
  lemma ParseVerdict(response: string)
    ensures Parse(response).verdict == Safe <==> BeginsWithSafe(Strip(response))
    ensures Parse(response).verdict == Safe ==> Parse(response) == Outcome(Safe, None)
    ensures Parse(response).verdict == Unsafe ==> Parse(response).categories.Some?
  {
    SafeReplyIgnoresCase(Strip(response));
  }

  /** "SAFE" is safe: the verdict test ignores case. */
  lemma ParseSafeUpperCase(response: string)
    requires response == "SAFE"
    ensures Parse(response) == Outcome(Safe, None)
  {
    StripUnpadded(response);
    ParseVerdict(response);
  }

  /** "  safe\n" is safe: the reply is stripped before the test. */
  lemma ParseSafePadded(response: string)
    requires response == "  safe\n"
    ensures Parse(response) == Outcome(Safe, None)
  {
    StripCore(response, 2, 6);
    assert response[2..6] == "safe";
    ParseVerdict(response);
  }

  /** "safety" is safe: only the first four characters are tested. */
  lemma ParseSafeLongerWord(response: string)
    requires response == "safety"
    ensures Parse(response) == Outcome(Safe, None)
  {
    StripUnpadded(response);
    ParseVerdict(response);
  }

  /** A reply that starts with "unsafe" in any case is unsafe and lists. */
  lemma ParseUnsafeWord(response: string)
    requires StartsWith(Lower(Strip(response)), "unsafe")
    ensures Parse(response).verdict == Unsafe && Parse(response).categories.Some?
  {
    SafeReplyIgnoresCase(Strip(response));
    var l := Lower(Strip(response));
    assert l[0] == 'u';
  }

  /** A text without the letter S contains no code. */
  lemma NoCodeWithoutS(t: string)
    requires 'S' !in t
    ensures forall i :: 0 <= i < |SafetyCategories| ==> !Contains(t, SafetyCategories[i].code)
  {
    forall i | 0 <= i < |SafetyCategories| ensures !Contains(t, SafetyCategories[i].code) {
      CodesBeginWithS(i);
      ContainsChar(t, SafetyCategories[i].code, 0);
    }
  }

  /** An empty or all-whitespace reply is unsafe with an empty list. */
  lemma ParseBlank(response: string)
    requires AllSpace(response)
    ensures Parse(response) == Outcome(Unsafe, Some([]))
  {
    NoCodeWithoutS([]);
    FlaggedNothing([], SafetyCategories, |SafetyCategories|);
  }

  /** Codes are matched case-sensitively: "unsafe s9" flags nothing. */
  lemma ParseLowerCaseCode(response: string)
    requires response == "unsafe s9"
    ensures Parse(response) == Outcome(Unsafe, Some([]))
  {
    StripUnpadded(response);
    ParseVerdict(response);
    NoCodeWithoutS(response);
    FlaggedNothing(response, SafetyCategories, |SafetyCategories|);
  }

  /** For an unsafe reply, a category is listed exactly when its code occurs
      in the stripped reply, as a case-sensitive substring. */
  lemma ParseCategoryIff(response: string, i: int)
    requires Parse(response).verdict == Unsafe
    requires 0 <= i < |SafetyCategories|
    ensures Entry(SafetyCategories[i]) in Parse(response).categories.value
        <==> Contains(Strip(response), SafetyCategories[i].code)
  {
    var reply := Strip(response);
    SafetyCategoriesWellFormed();
    if Contains(reply, SafetyCategories[i].code) {
      FlaggedComplete(reply, SafetyCategories, |SafetyCategories|, i);
    }
    if Entry(SafetyCategories[i]) in Flagged(reply, SafetyCategories, |SafetyCategories|) {
      FlaggedSound(reply, SafetyCategories, |SafetyCategories|, Entry(SafetyCategories[i]));
      var j :| 0 <= j < |SafetyCategories| && Entry(SafetyCategories[i]) == Entry(SafetyCategories[j])
               && Contains(reply, SafetyCategories[j].code);
      EntryInjective(SafetyCategories[i], SafetyCategories[j]);
    }
  }

  /** Every listed item is "<code>: <name>" of a table category whose code
      occurs in the stripped reply. */
  lemma ParseCategoriesFromTable(response: string, e: string)
    requires Parse(response).verdict == Unsafe
    requires e in Parse(response).categories.value
    ensures exists i :: 0 <= i < |SafetyCategories| && e == SafetyCategories[i].code + ": " + SafetyCategories[i].name
                        && Contains(Strip(response), SafetyCategories[i].code)
  {
    FlaggedSound(Strip(response), SafetyCategories, |SafetyCategories|, e);
  }

  /** Listed items follow the table order S1, S2, ..., S14: the item of an
      earlier category comes first. */
  lemma ParseTableOrder(response: string, i: int, j: int, p: int, q: int)
    requires Parse(response).verdict == Unsafe
    requires 0 <= i < j < |SafetyCategories|
    requires 0 <= p < |Parse(response).categories.value|
    requires 0 <= q < |Parse(response).categories.value|
    requires Parse(response).categories.value[p] == Entry(SafetyCategories[i])
    requires Parse(response).categories.value[q] == Entry(SafetyCategories[j])
    ensures p < q
  {
    SafetyCategoriesWellFormed();
    FlaggedTableOrder(Strip(response), SafetyCategories, |SafetyCategories|, i, j, p, q);
  }

  /** S9 is listed before S10 even when the reply names S10 first. */
  lemma ParseNineBeforeTen(response: string, p: int, q: int)
    requires Parse(response).verdict == Unsafe
    requires 0 <= p < |Parse(response).categories.value|
    requires 0 <= q < |Parse(response).categories.value|
    requires Parse(response).categories.value[p] == "S9: Indiscriminate Weapons"
    requires Parse(response).categories.value[q] == "S10: Hate"
    ensures p < q
  {
    NineEntry();
    TenEntry();
    ParseTableOrder(response, 8, 9, p, q);
  }

  /** The list has no duplicates and at most fourteen items. */
  lemma ParseNoDuplicates(response: string)
    requires Parse(response).verdict == Unsafe
    ensures |Parse(response).categories.value| <= 14
    ensures forall p, q :: 0 <= p < q < |Parse(response).categories.value|
                           ==> Parse(response).categories.value[p] != Parse(response).categories.value[q]
  {
    SafetyCategoriesWellFormed();
    FlaggedDistinct(Strip(response), SafetyCategories, |SafetyCategories|);
  }

  /** S1 is a prefix of S10 to S14, so an unsafe reply naming any of those
      also lists "S1: Violent Crimes". */
  lemma ParseReportsViolentCrimes(response: string, i: int)
    requires Parse(response).verdict == Unsafe
    requires 9 <= i < 14 && Contains(Strip(response), SafetyCategories[i].code)
    ensures "S1: Violent Crimes" in Parse(response).categories.value
  {
    var reply := Strip(response);
    var code := SafetyCategories[i].code;
    TwoDigitCodes(i);
    assert code == "S1" + code[2..];
    ContainsPrefix(reply, "S1", code[2..]);
    OneEntry();
    FlaggedComplete(reply, SafetyCategories, |SafetyCategories|, 0);
  }

  /** Leading and trailing whitespace never changes the result. */
  lemma ParseIgnoresPadding(w1: string, response: string, w2: string)
    requires AllSpace(w1) && AllSpace(w2)
    ensures Parse(w1 + response + w2) == Parse(response)
  {
    StripPadding(w1, response, w2);
  }
}
