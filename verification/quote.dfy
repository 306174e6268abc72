/** The quoted-fragment search of the movie macro: `re.search(r'"([^"]+)"', text)`.

    The pattern matches at opening position `i` exactly when `text[i]` is a quote,
    and the greedy `[^"]+` then runs to the next quote `j`, which must exist and
    leave at least one character between them. `re.search` reports the leftmost `i`. */
module Quote {
  import opened Wrappers

  /** The pattern matches with its opening quote at `i` and its closing quote at `j`. */
  predicate QuotedAt(s: string, i: int, j: int)
  {
    0 <= i && i + 1 < j < |s| && s[i] == '"' && s[j] == '"'
    && forall k :: i < k < j ==> s[k] != '"'
  }

  /** Position of the first quote at or after `from`. */
  function NextQuote(s: string, from: nat): (r: Option<nat>)
    requires from <= |s|
    decreases |s| - from
    ensures r.Some? ==> from <= r.value < |s| && s[r.value] == '"'
    ensures r.Some? ==> forall k :: from <= k < r.value ==> s[k] != '"'
    ensures r.None? ==> forall k :: from <= k < |s| ==> s[k] != '"'
  {
    if from == |s| then None
    else if s[from] == '"' then Some(from)
    else NextQuote(s, from + 1)
  }

  /** Leftmost match whose opening quote is at or after `p`, as (opening, closing) positions. */
  function SearchFrom(s: string, p: nat): (r: Option<(nat, nat)>)
    requires p <= |s|
    decreases |s| - p
    ensures r.Some? ==> p <= r.value.0 && QuotedAt(s, r.value.0, r.value.1)
    ensures r.Some? ==> forall i, j :: p <= i && QuotedAt(s, i, j) ==> r.value.0 <= i
    ensures r.None? ==> forall i, j :: p <= i ==> !QuotedAt(s, i, j)
  {
    if p == |s| then None
    else if s[p] != '"' then SearchFrom(s, p + 1)
    else
      match NextQuote(s, p + 1)
      case None => None
      case Some(q) =>
        if q == p + 1 then SearchFrom(s, p + 1) else Some((p, q))
  }

  /** `re.search(r'"([^"]+)"', s).group(1)`, or None when the search fails. */
  function FirstQuoted(s: string): (r: Option<string>)
    ensures r.None? <==> forall i, j :: !QuotedAt(s, i, j)
    ensures r.Some? ==> exists i, j :: QuotedAt(s, i, j) && r.value == s[i + 1..j]
                                      && forall i', j' :: QuotedAt(s, i', j') ==> i <= i'
    ensures r.Some? ==> |r.value| > 0 && '"' !in r.value
    ensures r.Some? ==> forall c :: c in r.value ==> c in s
  {
    match SearchFrom(s, 0)
    case None => None
    case Some(span) =>
      var run := s[span.0 + 1..span.1];
      assert forall c :: c in run ==> c in s by {
        forall c | c in run ensures c in s {
          var k :| 0 <= k < |run| && run[k] == c;
          assert s[span.0 + 1 + k] == c;
        }
      }
      Some(run)
  }
}
