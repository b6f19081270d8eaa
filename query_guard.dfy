/** The SQL admission gate of the chat route: a model-generated query is
    trimmed and lower-cased, and it is rejected when any of seven fixed
    keywords occurs in it as a substring. */
module QueryGuard {
  import opened JsString

  /** The gate's answer; both messages are empty when the query is admitted. */
  datatype Verdict = Verdict(isValid: bool, errorMessage: string, fixSuggestion: string)

  /** The denylist, in the order the route lists it. */
  const Forbidden: seq<string> := ["drop", "delete", "update", "insert", "alter", "truncate", "rename"]

  const RejectMessage: string := "The user input contains info that might trigger database change"
  const RejectFix: string := "Please fix your input to avoid any database changes."

  /** `query.trim().toLowerCase()`: no upper-case letter is left, and the
      order of the two steps does not matter. */
  function Normalize(query: string): (r: string)
    ensures |r| <= |query|
    ensures forall i :: 0 <= i < |r| ==> !IsUpper(r[i])
    ensures r == Trim(Lower(query))
  {
    LowerTrim(query);
    Lower(Trim(query))
  }

  /** `keys.some(k => s.includes(k))`. */
  function IncludesAny(s: string, keys: seq<string>): (r: bool)
    ensures r <==> exists n :: 0 <= n < |keys| && Contains(s, keys[n])
  {
    if keys == [] then false
    else Includes(s, keys[0]) || IncludesAny(s, keys[1..])
  }

  /** `guardRails(query)`: a rejection carries the two fixed messages, an
      admission two empty ones (`GuardRailsRejectsMentions` says which
      queries are rejected). */
  function GuardRails(query: string): (r: Verdict)
    ensures r.isValid <==> r.errorMessage == "" && r.fixSuggestion == ""
    ensures !r.isValid <==> r.errorMessage == RejectMessage && r.fixSuggestion == RejectFix
  {
    if IncludesAny(Normalize(query), Forbidden) then
      Verdict(false, RejectMessage, RejectFix)
    else
      Verdict(true, "", "")
  }

  /** The gate rejects exactly when a forbidden keyword occurs in the
      normalised query. */
  lemma GuardRailsRejectsExactly(query: string)
    ensures !GuardRails(query).isValid <==>
      exists n :: 0 <= n < |Forbidden| && Contains(Normalize(query), Forbidden[n])
  {
  }

  /** Reference reading of the gate: some forbidden keyword occurs in the
      query when case is ignored, wherever it stands. */
  ghost predicate MentionsForbidden(query: string) {
    exists n :: 0 <= n < |Forbidden| && Contains(Lower(query), Forbidden[n])
  }

  /** `k` is a non-empty run of lower-case ASCII letters. */
  predicate IsLowerWord(k: string) {
    k != [] && forall i :: 0 <= i < |k| ==> 'a' <= k[i] <= 'z'
  }

  /** Every keyword is a non-empty run of lower-case ASCII letters. */
  lemma ForbiddenAreLowerWords(n: int)
    requires 0 <= n < |Forbidden|
    ensures IsLowerWord(Forbidden[n])
  {
    match n
    case 0 => assert Forbidden[n] == "drop";
    case 1 => assert Forbidden[n] == "delete";
    case 2 => assert Forbidden[n] == "update";
    case 3 => assert Forbidden[n] == "insert";
    case 4 => assert Forbidden[n] == "alter";
    case 5 => assert Forbidden[n] == "truncate";
    case 6 => assert Forbidden[n] == "rename";
  }

  /** Hence every keyword is its own lower-case form and has no whitespace
      at its ends. */
  lemma ForbiddenWords(n: int)
    requires 0 <= n < |Forbidden|
    ensures Forbidden[n] != [] && Lower(Forbidden[n]) == Forbidden[n]
    ensures !IsSpace(Forbidden[n][0]) && !IsSpace(Forbidden[n][|Forbidden[n]| - 1])
  {
    var k := Forbidden[n];
    ForbiddenAreLowerWords(n);
    LowerUnchanged(k);
  }

  /** Trimming neither creates nor destroys an occurrence of a keyword. */
  lemma TrimKeepsKeyword(s: string, n: int)
    requires 0 <= n < |Forbidden|
    ensures Contains(Trim(s), Forbidden[n]) <==> Contains(s, Forbidden[n])
  {
    ForbiddenWords(n);
    TrimKeepsWords(s, Forbidden[n]);
  }

  /** The gate rejects exactly the queries that mention a forbidden keyword
      in any letter case: trimming never cuts into a keyword. */
  lemma GuardRailsRejectsMentions(query: string)
    ensures !GuardRails(query).isValid <==> MentionsForbidden(query)
  {
    GuardRailsRejectsExactly(query);
    forall n | 0 <= n < |Forbidden|
      ensures Contains(Normalize(query), Forbidden[n]) <==> Contains(Lower(query), Forbidden[n])
    {
      TrimKeepsKeyword(Lower(query), n);
    }
  }

  /** A query that mentions no keyword, in any letter case, is admitted
      with two empty messages, whatever kind of statement it is. */
  lemma NoMentionAdmitted(query: string)
    requires !MentionsForbidden(query)
    ensures GuardRails(query) == Verdict(true, "", "")
  {
    GuardRailsRejectsMentions(query);
  }

  /** The verdict depends on the query only up to letter case. */
  lemma CaseInsensitive(q1: string, q2: string)
    requires Lower(q1) == Lower(q2)
    ensures GuardRails(q1) == GuardRails(q2)
  {
    LowerTrim(q1);
    LowerTrim(q2);
  }

  /** An upper-cased query gets the same verdict as the original. */
  lemma UpperCaseSameVerdict(query: string)
    ensures GuardRails(Upper(query)) == GuardRails(query)
  {
    LowerUpper(query);
    CaseInsensitive(Upper(query), query);
  }

  /** Whitespace around the query does not change the verdict. */
  lemma WhitespaceIgnored(ws1: string, query: string, ws2: string)
    requires AllSpace(ws1) && AllSpace(ws2)
    ensures GuardRails(ws1 + query + ws2) == GuardRails(query)
  {
    TrimPadded(ws1, query, ws2);
  }

  /** Matching is by substring: a keyword inside a longer word or literal
      still rejects the query. */
  lemma EmbeddedKeywordRejected(before: string, n: int, after: string)
    requires 0 <= n < |Forbidden|
    ensures !GuardRails(before + Forbidden[n] + after).isValid
  {
    var k := Forbidden[n];
    ForbiddenWords(n);
    assert OccursAt(k, k, 0);
    ContainsExtend(before, k, after, k);
    LowerKeepsLowerWords(before + k + after, k);
    GuardRailsRejectsMentions(before + k + after);
  }

  /** Once rejected, a query stays rejected whatever text is added before
      or after it. */
  lemma RejectionMonotone(before: string, query: string, after: string)
    ensures !GuardRails(query).isValid ==> !GuardRails(before + query + after).isValid
  {
    if !GuardRails(query).isValid {
      GuardRailsRejectsMentions(query);
      var n :| 0 <= n < |Forbidden| && Contains(Lower(query), Forbidden[n]);
      ContainsExtend(Lower(before), Lower(query), Lower(after), Forbidden[n]);
      LowerAppend(before, query);
      LowerAppend(before + query, after);
      GuardRailsRejectsMentions(before + query + after);
    }
  }

  /** The letters d, u, n and l in either case: every keyword has one. */
  predicate KeywordLetter(c: char) {
    c == 'd' || c == 'D' || c == 'u' || c == 'U' || c == 'n' || c == 'N' || c == 'l' || c == 'L'
  }

  /** A query that has none of the letters d, u, n and l, in either case,
      is admitted: each keyword contains one of them. */
  lemma AdmittedWithoutKeywordLetters(query: string)
    requires forall i :: 0 <= i < |query| ==> !KeywordLetter(query[i])
    ensures GuardRails(query) == Verdict(true, "", "")
  {
    var lower := Lower(query);
    assert 'd' !in query && 'D' !in query && 'u' !in query && 'U' !in query;
    assert 'n' !in query && 'N' !in query && 'l' !in query && 'L' !in query;
    LowerLacks(query, 'd');
    LowerLacks(query, 'u');
    LowerLacks(query, 'n');
    LowerLacks(query, 'l');
    forall n | 0 <= n < |Forbidden|
      ensures !Contains(lower, Forbidden[n])
    {
      var c := if n <= 1 then 'd' else if n == 2 || n == 5 then 'u' else if n == 4 then 'l' else 'n';
      assert c in Forbidden[n];
      MissingChar(lower, Forbidden[n], c);
    }
    NoMentionAdmitted(query);
  }

  // Worked examples. Each query is written as a concatenation of string
  // literals, so that the verifier argues through the lemmas above instead
  // of evaluating the gate on one long literal character by character.

  /** `GuardRails("drop table x")` rejects. */
  lemma DropRejected(query: string)
    requires query == "drop" + " table x"
    ensures !GuardRails(query).isValid
  {
    assert query == "" + Forbidden[0] + " table x";
    EmbeddedKeywordRejected("", 0, " table x");
  }

  /** `GuardRails("DROP TABLE x")` and `GuardRails("Drop Table x")` reject:
      the upper-case and mixed-case spellings. */
  lemma DropRejectedAnyCase(query: string)
    requires query == "DROP" + " TABLE x" || query == "Drop" + " Table x"
    ensures !GuardRails(query).isValid
  {
    var lower := Lower(query);
    assert lower[0] == 'd' && lower[1] == 'r' && lower[2] == 'o' && lower[3] == 'p';
    assert lower[..4] == Forbidden[0];
    assert OccursAt(lower, Forbidden[0], 0);
    GuardRailsRejectsMentions(query);
  }

  /** `GuardRails("select * from logs where action = 'updated'")` rejects:
      a keyword inside a string literal is a false positive the gate keeps. */
  lemma UpdatedLiteralRejected(query: string)
    requires query == "select * from logs where action = '" + "updated'"
    ensures !GuardRails(query).isValid
  {
    var before := "select * from logs where action = '";
    assert "updated'" == Forbidden[2] + "d'";
    assert query == before + Forbidden[2] + "d'";
    EmbeddedKeywordRejected(before, 2, "d'");
  }

  /** `GuardRails("select alternate from products")` rejects: a column name
      that merely begins with a keyword. */
  lemma AlternateRejected(query: string)
    requires query == "select " + "alternate" + " from products"
    ensures !GuardRails(query).isValid
  {
    var before, after := "select ", "nate" + " from products";
    assert "alternate" == Forbidden[4] + "nate";
    assert query == before + Forbidden[4] + after;
    EmbeddedKeywordRejected(before, 4, after);
  }

  /** `GuardRails("delete from products")` rejects. */
  lemma DeleteRejected(query: string)
    requires query == "delete" + " from products"
    ensures !GuardRails(query).isValid
  {
    assert query == "" + Forbidden[1] + " from products";
    EmbeddedKeywordRejected("", 1, " from products");
  }

  /** `GuardRails("   delete from products   ")` rejects: blanks around the
      statement do not help it. */
  lemma PaddedDeleteRejected(query: string)
    requires query == "   " + "delete" + " from products" + "   "
    ensures !GuardRails(query).isValid
  {
    var core := "delete" + " from products";
    var blanks := "   ";
    assert AllSpace(blanks);
    assert query == blanks + core + blanks;
    DeleteRejected(core);
    WhitespaceIgnored(blanks, core, blanks);
  }

  /** `GuardRails("PRAGMA page_size")` admits with two empty messages: a
      statement that is not a SELECT passes when no keyword occurs in it. */
  lemma PragmaAdmitted(query: string)
    requires query == "PRAGMA " + "page_size"
    ensures GuardRails(query) == Verdict(true, "", "")
  {
    AdmittedWithoutKeywordLetters(query);
  }
}
