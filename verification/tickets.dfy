/** The administrators' ticket list: the status labels and their inversion
    (`getStatusValue`) and the status and search filter (`filterTickets`). */
module Tickets {
  import opened Text

  /** The label shown for each status value, in the order the page lists
      them. */
  const StatusLabels: seq<(string, string)> := [("open", "Offen"), ("in_progress", "In Bearbeitung"), ("closed", "Geschlossen")]

  /** The first status whose label is `shown`, at or after entry `i`. */
  function StatusFrom(shown: string, i: nat): (r: string)
    requires i <= |StatusLabels|
    decreases |StatusLabels| - i
  {
    if i == |StatusLabels| then "open"
    else if StatusLabels[i].1 == shown then StatusLabels[i].0
    else StatusFrom(shown, i + 1)
  }

  /** A shown label back to its status value; an unknown label gives
      "open". */
  function GetStatusValue(shown: string): (r: string)
    ensures (forall i :: 0 <= i < |StatusLabels| ==> StatusLabels[i].1 != shown) ==> r == "open"
    ensures exists i :: 0 <= i < |StatusLabels| && r == StatusLabels[i].0
  {
    StatusFrom(shown, 0)
  }

  /** Reading back the label of any status gives that status. */
  lemma StatusLabelRoundTrip(i: nat)
    requires i < |StatusLabels|
    ensures GetStatusValue(StatusLabels[i].1) == StatusLabels[i].0
  {
    if i == 0 {
    } else if i == 1 {
      assert StatusFrom(StatusLabels[1].1, 0) == StatusFrom(StatusLabels[1].1, 1);
    } else {
      assert StatusFrom(StatusLabels[2].1, 0) == StatusFrom(StatusLabels[2].1, 1) == StatusFrom(StatusLabels[2].1, 2);
    }
  }

  /** A label reads back as "open" exactly when it is the label of "open"
      or the label of no status at all. */
  lemma {:induction false} UnknownLabelIsOpen(shown: string)
    ensures GetStatusValue(shown) == "open" <==>
      (shown == StatusLabels[0].1 || forall i :: 0 <= i < |StatusLabels| ==> StatusLabels[i].1 != shown)
  {
    if shown == StatusLabels[1].1 {
      StatusLabelRoundTrip(1);
    } else if shown == StatusLabels[2].1 {
      StatusLabelRoundTrip(2);
    }
  }

  /** A ticket's status and its other field values as text, in field
      order. */
  datatype Ticket = Ticket(status: string, others: seq<string>)

  function Values(t: Ticket): (vs: seq<string>)
    ensures |vs| >= 1 && vs[0] == t.status
  {
    [t.status] + t.others
  }

  /** The status filter: "all" lets every ticket through, any other value
      only the tickets with exactly that status. */
  function MatchesStatus(t: Ticket, statusFilter: string): (r: bool)
    ensures statusFilter == "all" ==> r
    ensures r && statusFilter != "all" ==> t.status == statusFilter
    ensures t.status == statusFilter ==> r
  {
    statusFilter == "all" || t.status == statusFilter
  }

  /** Some field value contains the query, both lower-cased. The empty
      query is found in every ticket, and a query found in the status
      finds the ticket. */
  function MatchesSearch(t: Ticket, query: string): (r: bool)
    ensures query == [] ==> r
    ensures Contains(Lower(t.status), Lower(query)) ==> r
    ensures forall i :: 0 <= i < |t.others| && Contains(Lower(t.others[i]), Lower(query)) ==> r
    ensures r ==> (Contains(Lower(t.status), Lower(query))
                   || exists i :: 0 <= i < |t.others| && Contains(Lower(t.others[i]), Lower(query)))
  {
    assert Values(t)[0] == t.status;
    assert forall i :: 0 <= i < |t.others| ==> Values(t)[i + 1] == t.others[i];
    assert query == [] ==> OccursAt(Lower(Values(t)[0]), Lower(query), 0);
    exists i :: 0 <= i < |Values(t)| && Contains(Lower(Values(t)[i]), Lower(query))
  }

  predicate Shown(t: Ticket, statusFilter: string, query: string)
  {
    MatchesStatus(t, statusFilter) && MatchesSearch(t, query)
  }

  /** The tickets that pass both tests, in their original order. */
  function FilterTickets(tickets: seq<Ticket>, statusFilter: string, query: string): (r: seq<Ticket>)
    ensures |r| <= |tickets|
    ensures forall i :: 0 <= i < |r| ==> Shown(r[i], statusFilter, query)
  {
    if tickets == [] then []
    else
      var rest := FilterTickets(tickets[1..], statusFilter, query);
      if Shown(tickets[0], statusFilter, query) then [tickets[0]] + rest else rest
  }

  /** `a` is `b` with some elements left out. */
  predicate Subsequence<T(==)>(a: seq<T>, b: seq<T>)
    decreases |b|
  {
    if a == [] then true
    else if b == [] then false
    else (a[0] == b[0] && Subsequence(a[1..], b[1..])) || Subsequence(a, b[1..])
  }

  /** The filter keeps order: its result is a subsequence of the list. */
  lemma {:induction false} FilterIsSubsequence(tickets: seq<Ticket>, statusFilter: string, query: string)
    ensures Subsequence(FilterTickets(tickets, statusFilter, query), tickets)
  {
    if tickets != [] {
      FilterIsSubsequence(tickets[1..], statusFilter, query);
      var rest := FilterTickets(tickets[1..], statusFilter, query);
      if Shown(tickets[0], statusFilter, query) {
        assert ([tickets[0]] + rest)[1..] == rest;
      } else {
        SubsequenceOfTail(rest, tickets);
      }
    }
  }

  lemma SubsequenceOfTail<T>(a: seq<T>, b: seq<T>)
    requires b != [] && Subsequence(a, b[1..])
    ensures Subsequence(a, b)
  {
  }

  /** A ticket is listed exactly when it is in the list and passes both
      tests. */
  lemma {:induction false} FilterMembership(tickets: seq<Ticket>, statusFilter: string, query: string, t: Ticket)
    ensures t in FilterTickets(tickets, statusFilter, query) <==> t in tickets && Shown(t, statusFilter, query)
  {
    if tickets != [] {
      FilterMembership(tickets[1..], statusFilter, query, t);
      assert tickets == [tickets[0]] + tickets[1..];
    }
  }

  /** Every text contains the empty query, so with "all" nothing is left
      out. */
  lemma {:induction false} EmptyQueryKeepsAll(tickets: seq<Ticket>)
    ensures FilterTickets(tickets, "all", "") == tickets
  {
    if tickets != [] {
      EmptyQueryKeepsAll(tickets[1..]);
      assert tickets == [tickets[0]] + tickets[1..];
    }
  }

  /** The search ignores the case of the query. */
  lemma SearchIgnoresQueryCase(t: Ticket, query: string)
    ensures MatchesSearch(t, query) <==> MatchesSearch(t, Lower(query))
  {
    LowerIdempotent(query);
  }

  lemma LowerIdempotent(s: string)
    ensures Lower(Lower(s)) == Lower(s)
  {
  }
}
