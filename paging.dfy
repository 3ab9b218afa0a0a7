/** Query-parameter defaults and the window arithmetic of the paged folder
    listings (routes/mailbox.js:41-93 for /myinbox, 105-157 for /mysent),
    over a folder that is already filtered and sorted. */
module Paging {
  import opened Records

  function Min(a: int, b: int): int { if a <= b then a else b }

  /** A raw query parameter: None when it is absent or parseInt gives NaN. */
  predicate NonNegative(raw: Option<int>) {
    raw.None? || raw.value >= 0
  }

  /** `parseInt(raw) || fallback`: a missing, non-numeric or zero parameter
      takes the fallback, any other number is kept. */
  function ParseOrDefault(raw: Option<int>, fallback: nat): (r: int)
    ensures raw.None? || raw == Some(0) ==> r == fallback
    ensures raw.Some? && raw.value != 0 ==> r == raw.value
    ensures NonNegative(raw) ==> r >= 0
    ensures NonNegative(raw) && fallback > 0 ==> r > 0
  {
    if raw.None? || raw.value == 0 then fallback else raw.value
  }

  /** `Math.ceil(total / limit)`: the number of pages of `limit` records
      that hold `total` records. */
  function CeilDiv(total: nat, limit: nat): (r: nat)
    requires limit > 0
    ensures r * limit >= total
    ensures r > 0 ==> (r - 1) * limit < total
    ensures total == 0 <==> r == 0
  {
    if total == 0 then 0
    else if total <= limit then 1
    else
      var rest := CeilDiv(total - limit, limit);
      assert (rest + 1) * limit == rest * limit + limit;
      rest + 1
  }

  lemma MulMonotone(a: nat, b: nat, c: nat)
    requires a <= b
    ensures a * c <= b * c
  {
    assert b * c == a * c + (b - a) * c;
  }

  /** With page, limit >= 1, the page exists (is at most the page count)
      exactly when the records it skips leave something to show. */
  lemma {:induction false} PageExists(total: nat, page: nat, limit: nat)
    requires page >= 1 && limit >= 1
    ensures page <= CeilDiv(total, limit) <==> (page - 1) * limit < total
  {
    var c := CeilDiv(total, limit);
    if page <= c {
      MulMonotone(page - 1, c - 1, limit);
    } else {
      MulMonotone(c, page - 1, limit);
    }
  }

  /** `.skip(skip).limit(n)` over an already sorted sequence, for n > 0: the
      records at positions skip, skip+1, ... and at most n of them. */
  function Fetch<T>(s: seq<T>, skip: nat, n: nat): (r: seq<T>)
    requires n > 0
    ensures |r| == if skip >= |s| then 0 else Min(n, |s| - skip)
    ensures forall i :: 0 <= i < |r| ==> r[i] == s[skip + i]
  {
    if skip >= |s| then [] else s[skip .. Min(skip + n, |s|)]
  }

  /** JavaScript's `a.slice(0, -1)`: everything but the last element, and
      nothing for an empty array. */
  function DropLast<T>(s: seq<T>): (r: seq<T>)
    ensures |r| == if s == [] then 0 else |s| - 1
    ensures forall i :: 0 <= i < |r| ==> r[i] == s[i]
  {
    if s == [] then [] else s[..|s| - 1]
  }

  /** The JSON body of a paged listing. */
  datatype Page<T> = Page(messages: seq<T>, totalEmails: nat, startIndex: int, endIndex: Option<int>)

  /** The answer of a paged listing over the folder `sorted` (already
      filtered and newest first), with page and limit after defaulting. */
  function WindowedPage<T>(sorted: seq<T>, page: int, limit: int): Reply<Page<T>>
    requires page >= 1 && limit >= 1
  {
    var skip := (page - 1) * limit;
    var fetched := Fetch(sorted, skip, limit + 1);
    var totalEmails := |sorted|;
    if page > CeilDiv(totalEmails, limit) then PageNotFound
    else
      var startIndex := if |fetched| > 0 then skip + 1 else -1;
      var endIndex := if |fetched| > 0 then Some(startIndex + |fetched| - 1) else None;
      Ok(Page(DropLast(fetched), totalEmails, startIndex, endIndex))
  }

  /** "Page not found" exactly when the page lies past the last page, which
      is exactly when it would skip every record. */
  lemma WindowedPageNotFound<T>(sorted: seq<T>, page: int, limit: int)
    requires page >= 1 && limit >= 1
    ensures WindowedPage(sorted, page, limit).Ok? || WindowedPage(sorted, page, limit).PageNotFound?
    ensures WindowedPage(sorted, page, limit).PageNotFound? <==> page > CeilDiv(|sorted|, limit)
    ensures WindowedPage(sorted, page, limit).PageNotFound? <==> (page - 1) * limit >= |sorted|
  {
    PageExists(|sorted|, page, limit);
  }

  /** An empty folder has no pages at all, not even page 1. */
  lemma EmptyFolderHasNoPage<T>(sorted: seq<T>, page: int, limit: int)
    requires page >= 1 && limit >= 1
    requires sorted == []
    ensures WindowedPage(sorted, page, limit) == PageNotFound
  {
  }

  /** A page that exists starts at record skip+1 (never the -1 sentinel),
      its end index is the start plus the number of records it returns,
      and it returns the records that follow the skipped ones, at most
      `limit` of them and always one fewer than were fetched. */
  lemma WindowedPageOk<T>(sorted: seq<T>, page: int, limit: int)
    requires page >= 1 && limit >= 1
    requires WindowedPage(sorted, page, limit).Ok?
    ensures var p := WindowedPage(sorted, page, limit).value;
      var skip := (page - 1) * limit;
      && skip < |sorted|
      && p.totalEmails == |sorted|
      && p.startIndex == skip + 1
      && p.endIndex == Some(p.startIndex + |p.messages|)
      && |p.messages| == Min(limit, |sorted| - skip - 1)
      && |p.messages| <= limit
      && p.messages == sorted[skip .. skip + |p.messages|]
  {
    WindowedPageNotFound(sorted, page, limit);
    var skip := (page - 1) * limit;
    var p := WindowedPage(sorted, page, limit).value;
    assert p.messages == DropLast(Fetch(sorted, skip, limit + 1));
    assert forall i :: 0 <= i < |p.messages| ==> p.messages[i] == sorted[skip + i];
  }

  /** An existing page is a run of consecutive records of the folder. */
  lemma WindowedPageSlice<T>(sorted: seq<T>, page: int, limit: int)
    requires page >= 1 && limit >= 1
    requires WindowedPage(sorted, page, limit).Ok?
    ensures var shown := WindowedPage(sorted, page, limit).value.messages;
      && (page - 1) * limit + |shown| <= |sorted|
      && shown == sorted[(page - 1) * limit .. (page - 1) * limit + |shown|]
      && forall x :: x in shown ==> x in sorted
  {
    WindowedPageOk(sorted, page, limit);
  }

  /** With 15 records, page 2 of 10 answers records 11 to 14 (four of them)
      with startIndex 11 and endIndex 15. */
  lemma FifteenRecordsPageTwo<T>(sorted: seq<T>)
    requires |sorted| == 15
    ensures WindowedPage(sorted, 2, 10) == Ok(Page(sorted[10..14], 15, 11, Some(15)))
  {
    assert CeilDiv(5, 10) == 1 && CeilDiv(15, 10) == 2;
    var fetched := Fetch(sorted, 10, 11);
    assert fetched == sorted[10..15];
    assert DropLast(fetched) == sorted[10..14];
  }

  /** The records shown by pages page, page+1, ... up to the last page,
      one page after another. */
  function ListedFrom<T>(sorted: seq<T>, page: nat, limit: nat): seq<T>
    requires page >= 1 && limit >= 1
    decreases CeilDiv(|sorted|, limit) + 1 - page
  {
    if page > CeilDiv(|sorted|, limit) then []
    else
      WindowedPageNotFound(sorted, page, limit);
      WindowedPage(sorted, page, limit).value.messages + ListedFrom(sorted, page + 1, limit)
  }

  /** The records an existing page shows, as one slice of the folder. */
  lemma ShownOnPage<T>(sorted: seq<T>, page: nat, limit: nat, skip: nat)
    requires page >= 1 && limit >= 1 && skip == (page - 1) * limit
    requires page <= CeilDiv(|sorted|, limit)
    ensures skip < |sorted|
    ensures WindowedPage(sorted, page, limit).Ok?
    ensures WindowedPage(sorted, page, limit).value.messages
      == sorted[skip .. Min(skip + limit, |sorted| - 1)]
  {
    WindowedPageNotFound(sorted, page, limit);
    WindowedPageOk(sorted, page, limit);
  }

  lemma {:induction false} ListedFromIs<T>(sorted: seq<T>, page: nat, limit: nat)
    requires page >= 1 && limit >= 1
    requires page <= CeilDiv(|sorted|, limit) + 1
    ensures ListedFrom(sorted, page, limit)
      == if (page - 1) * limit < |sorted| then sorted[(page - 1) * limit .. |sorted| - 1] else []
    decreases CeilDiv(|sorted|, limit) + 1 - page
  {
    PageExists(|sorted|, page, limit);
    if page <= CeilDiv(|sorted|, limit) {
      var skip := (page - 1) * limit;
      var next := page * limit;
      assert next == skip + limit;
      ShownOnPage(sorted, page, limit, skip);
      ListedFromIs(sorted, page + 1, limit);
      var shown := WindowedPage(sorted, page, limit).value.messages;
      var rest := ListedFrom(sorted, page + 1, limit);
      assert ListedFrom(sorted, page, limit) == shown + rest;
      if next < |sorted| {
        assert rest == sorted[next .. |sorted| - 1];
        assert shown == sorted[skip .. next];
        assert sorted[skip .. |sorted| - 1] == sorted[skip .. next] + sorted[next .. |sorted| - 1];
      } else {
        assert rest == [];
        assert shown == sorted[skip .. |sorted| - 1];
      }
    }
  }

  /** Walking every page from 1 to the last one lists each record of a
      non-empty folder once and in order, except the oldest one, which no
      page ever shows: the last page drops a real record instead of the
      look-ahead record it did not fetch. */
  lemma AllPagesMissLast<T>(sorted: seq<T>, limit: nat)
    requires limit >= 1 && sorted != []
    ensures ListedFrom(sorted, 1, limit) == sorted[..|sorted| - 1]
  {
    ListedFromIs(sorted, 1, limit);
  }
}
