/**
 * The credential list's search: the filter its effect computes from the search
 * box and the message shown when the filtered list is empty.
 */
module SiteList {
  import opened Wrappers
  import opened Seqs
  import opened Text
  import opened Records

  /** The lower-cased name, url or username contains `query`. */
  predicate MatchesQuery(c: LoginCredential, query: string) {
    Contains(ToLower(c.name), query) || Contains(ToLower(c.url), query) || Contains(ToLower(c.username), query)
  }

  /** The list shown for `searchQuery`: everything when the trimmed query is empty, else the
      credentials matching the lower-cased query, which is not trimmed. */
  function FilterCredentials(credentials: seq<LoginCredential>, searchQuery: string): (r: seq<LoginCredential>)
    ensures |r| <= |credentials|
    ensures forall k :: 0 <= k < |r| ==> r[k] in credentials
  {
    if Trim(searchQuery) == [] then credentials
    else
      var query := ToLower(searchQuery);
      Filter(credentials, (c: LoginCredential) => MatchesQuery(c, query))
  }

  /** A blank query shows every credential; otherwise exactly the matching ones are kept, in
      their order and as often as they occur, so the list is never longer than the credentials. */
  lemma FilterSpec(credentials: seq<LoginCredential>, searchQuery: string)
    ensures var r := FilterCredentials(credentials, searchQuery);
      && (IsBlank(searchQuery) ==> r == credentials)
      && (!IsBlank(searchQuery) ==>
            && (forall k :: 0 <= k < |r| ==> MatchesQuery(r[k], ToLower(searchQuery)))
            && (forall i :: 0 <= i < |credentials| && MatchesQuery(credentials[i], ToLower(searchQuery)) ==>
                  credentials[i] in r)
            && (forall x :: multiset(r)[x] == if MatchesQuery(x, ToLower(searchQuery)) then multiset(credentials)[x] else 0))
      && IsSubsequence(r, credentials)
      && |r| <= |credentials|
  {
    TrimEmptyIffBlank(searchQuery);
    var r := FilterCredentials(credentials, searchQuery);
    if IsBlank(searchQuery) {
      assert Embeds(Indices(|credentials|), r, credentials);
    } else {
      var query := ToLower(searchQuery);
      FilterIsSubsequence(credentials, (c: LoginCredential) => MatchesQuery(c, query));
      FilterCount(credentials, (c: LoginCredential) => MatchesQuery(c, query));
    }
  }

  /** Queries that differ only in letter case show the same list. */
  lemma CaseInsensitive(credentials: seq<LoginCredential>, q1: string, q2: string)
    requires ToLower(q1) == ToLower(q2)
    ensures FilterCredentials(credentials, q1) == FilterCredentials(credentials, q2)
  {
    TrimEmptyIffBlank(q1);
    TrimEmptyIffBlank(q2);
    BlankIffLowerBlank(q1);
    BlankIffLowerBlank(q2);
  }

  /** The query is matched untrimmed: "ab " finds nothing in a credential whose fields are all
      "ab", although "ab" finds it. */
  lemma UntrimmedQuery(c: LoginCredential)
    requires c.name == "ab" && c.url == "ab" && c.username == "ab"
    ensures FilterCredentials([c], "ab ") == []
    ensures FilterCredentials([c], "ab") == [c]
  {
    ToLowerOfLower("ab");
    ToLowerOfLower("ab ");
    ContainsLonger("ab", "ab ");
    assert !IsBlank("ab ") && !IsBlank("ab") by {
      assert !IsJsWhitespace("ab "[0]);
    }
    TrimEmptyIffBlank("ab ");
    TrimEmptyIffBlank("ab");
    assert StartsWith("ab", "ab");
    assert MatchesQuery(c, "ab");
    assert !MatchesQuery(c, "ab ");
  }

  /** The message in place of an empty list: none while the list has entries, "No saved
      passwords yet" when there are no credentials at all, else "No matches found". */
  function EmptyStateMessage(credentials: seq<LoginCredential>, filtered: seq<LoginCredential>): Option<string> {
    if |filtered| > 0 then None
    else if |credentials| == 0 then Some("No saved passwords yet")
    else Some("No matches found")
  }

  /** "No saved passwords yet" appears exactly when there are no credentials; "No matches found"
      only for a non-blank query that no credential matches. */
  lemma EmptyStateSpec(credentials: seq<LoginCredential>, searchQuery: string)
    ensures var m := EmptyStateMessage(credentials, FilterCredentials(credentials, searchQuery));
      && (m == Some("No saved passwords yet") <==> credentials == [])
      && (m == Some("No matches found") <==>
            && credentials != [] && !IsBlank(searchQuery)
            && forall i :: 0 <= i < |credentials| ==> !MatchesQuery(credentials[i], ToLower(searchQuery)))
  {
    FilteredEmpty(credentials, searchQuery);
  }

  /** The filtered list is empty exactly when there are no credentials or the query is
      non-blank and matches none of them. */
  lemma FilteredEmpty(credentials: seq<LoginCredential>, searchQuery: string)
    ensures FilterCredentials(credentials, searchQuery) == [] <==>
      || credentials == []
      || (!IsBlank(searchQuery) && forall i :: 0 <= i < |credentials| ==> !MatchesQuery(credentials[i], ToLower(searchQuery)))
  {
    FilterSpec(credentials, searchQuery);
    var r := FilterCredentials(credentials, searchQuery);
    if credentials == [] {
      assert |r| <= 0;
    }
    if !IsBlank(searchQuery) && forall i :: 0 <= i < |credentials| ==> !MatchesQuery(credentials[i], ToLower(searchQuery)) {
      TrimEmptyIffBlank(searchQuery);
      var query := ToLower(searchQuery);
      FilterNone(credentials, (c: LoginCredential) => MatchesQuery(c, query));
    }
  }
}
