/**
 * The review status of employers, sport teams, athletes and ID requests: a
 * PATCH writes a new status only when it is one of the three accepted words.
 * Each table is modelled by its `status` column, keyed by row id.
 */
module StatusGates {
  import opened Common

  const Statuses: set<string> := {"PENDING", "ACCEPTED", "DECLINED"}

  /** `['PENDING', 'ACCEPTED', 'DECLINED'].includes(status)`; an absent status is not included. */
  predicate IsStatus(status: Option<string>)
  {
    status.Some? && status.value in Statuses
  }

  /** Every stored status is one of the accepted words. */
  predicate AllStatuses(table: map<int, string>)
  {
    forall id :: id in table ==> table[id] in Statuses
  }

  /**
   * `UPDATE … SET status = ? WHERE id = ?` behind the whitelist, as the employer,
   * team and athlete routes do it: 400 for any other value (the exact, upper-case
   * word is required), 404 when no row has the id.
   */
  function SetStatus(table: map<int, string>, id: int, status: Option<string>): (r: (Response<()>, map<int, string>))
    ensures r.0 == Fail(400) <==> !IsStatus(status)
    ensures r.0 == Fail(404) <==> IsStatus(status) && id !in table
    ensures r.0.Fail? ==> r.1 == table
    ensures r.0.Ok? ==> && r.1.Keys == table.Keys
                        && r.1[id] == status.value
                        && forall k :: k in table && k != id ==> r.1[k] == table[k]
    ensures AllStatuses(table) ==> AllStatuses(r.1)
  {
    if !IsStatus(status) then (Fail(400), table)
    else if id !in table then (Fail(404), table)
    else (Ok(()), table[id := status.value])
  }

  /**
   * The ID-request route upper-cases `status || ''` first, so the whitelist is
   * checked and the row written with the upper-cased word.
   */
  function SetRequestStatus(table: map<int, string>, id: int, status: Option<string>): (r: (Response<()>, map<int, string>))
    ensures r == SetStatus(table, id, Some(Upper(OrEmpty(status))))
    ensures r.0.Ok? ==> r.1[id] in Statuses
  {
    SetStatus(table, id, Some(Upper(OrEmpty(status))))
  }

  /** A status differing from an accepted word only in the case of ASCII letters passes the request route. */
  lemma RequestStatusIgnoresCase(table: map<int, string>, id: int, s: string, word: string)
    requires word in Statuses && id in table
    requires |s| == |word| && forall i :: 0 <= i < |s| ==> UpperChar(s[i]) == word[i]
    ensures SetRequestStatus(table, id, Some(s)).0.Ok?
    ensures SetRequestStatus(table, id, Some(s)).1[id] == word
  {
    assert s != "" by {
      assert |word| > 0;
    }
    assert Upper(s) == word;
  }

  /**
   * "accepted" is refused where the exact word is required and written as
   * "ACCEPTED" by the request route.
   */
  lemma LowerCaseStatus(table: map<int, string>, id: int)
    requires id in table
    ensures SetStatus(table, id, Some("accepted")) == (Fail(400), table)
    ensures SetRequestStatus(table, id, Some("accepted")).1[id] == "ACCEPTED"
  {
    RequestStatusIgnoresCase(table, id, "accepted", "ACCEPTED");
  }
}
