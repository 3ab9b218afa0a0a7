/** The store's timestamp timeline: the newest-first order every listing
    sorts by (`.sort({ timestamp: -1 })`), and the nearest neighbours of a
    timestamp used by the next/prev routes (routes/email.js:75-79, 100-104).
    The document store's sort is not part of the source; SortDesc is a
    stable insertion sort that stands in for it. */
module Timeline {
  import opened Records

  /** Timestamps never increase along `s`. */
  predicate SortedDesc(s: seq<Message>) {
    forall i, j :: 0 <= i < j < |s| ==> s[i].timestamp >= s[j].timestamp
  }

  /** Places `m` into the newest-first sequence `s`, before every record
      that is not newer than it. */
  function Insert(m: Message, s: seq<Message>): (r: seq<Message>)
    requires SortedDesc(s)
    ensures SortedDesc(r)
    ensures |r| == |s| + 1
    ensures forall x :: x in r <==> x == m || x in s
    ensures multiset(r) == multiset(s) + multiset{m}
  {
    if s == [] then [m]
    else if m.timestamp >= s[0].timestamp then [m] + s
    else
      var tail := Insert(m, s[1..]);
      assert forall j :: 0 <= j < |tail| ==> tail[j].timestamp <= s[0].timestamp by {
        forall j | 0 <= j < |tail| ensures tail[j].timestamp <= s[0].timestamp {
          assert tail[j] in tail;
        }
      }
      assert s == [s[0]] + s[1..];
      [s[0]] + tail
  }

  /** The records of `s` newest first: a sorted permutation of `s`. */
  function SortDesc(s: seq<Message>): (r: seq<Message>)
    ensures SortedDesc(r)
    ensures |r| == |s|
    ensures forall x :: x in r <==> x in s
    ensures multiset(r) == multiset(s)
  {
    if s == [] then []
    else
      assert s == [s[0]] + s[1..];
      Insert(s[0], SortDesc(s[1..]))
  }

  /** Any run of consecutive records of a sorted sequence is sorted. */
  lemma SortedSlice(s: seq<Message>, a: nat, b: nat)
    requires a <= b <= |s| && SortedDesc(s)
    ensures SortedDesc(s[a..b])
  {
    assert forall i :: 0 <= i < b - a ==> s[a..b][i] == s[a + i];
  }

  /** The record (first in store order among equals) with the least
      timestamp strictly greater than `t`, or None when there is none:
      `findOne({ timestamp: { $gt: t } }).sort({ timestamp: 1 })`. */
  function LeastAbove(s: seq<Message>, t: nat): (r: Option<Message>)
    ensures r.None? <==> forall i :: 0 <= i < |s| ==> s[i].timestamp <= t
    ensures r.Some? ==> r.value in s && r.value.timestamp > t
    ensures r.Some? ==> forall i :: 0 <= i < |s| && s[i].timestamp > t ==> r.value.timestamp <= s[i].timestamp
  {
    if s == [] then None
    else
      var rest := LeastAbove(s[1..], t);
      assert forall i :: 1 <= i < |s| ==> s[i] == s[1..][i - 1];
      if s[0].timestamp <= t then rest
      else if rest.None? || s[0].timestamp <= rest.value.timestamp then Some(s[0])
      else rest
  }

  /** The record with the greatest timestamp strictly less than `t`, or
      None: `findOne({ timestamp: { $lt: t } }).sort({ timestamp: -1 })`. */
  function GreatestBelow(s: seq<Message>, t: nat): (r: Option<Message>)
    ensures r.None? <==> forall i :: 0 <= i < |s| ==> s[i].timestamp >= t
    ensures r.Some? ==> r.value in s && r.value.timestamp < t
    ensures r.Some? ==> forall i :: 0 <= i < |s| && s[i].timestamp < t ==> r.value.timestamp >= s[i].timestamp
  {
    if s == [] then None
    else
      var rest := GreatestBelow(s[1..], t);
      assert forall i :: 1 <= i < |s| ==> s[i] == s[1..][i - 1];
      if s[0].timestamp >= t then rest
      else if rest.None? || s[0].timestamp >= rest.value.timestamp then Some(s[0])
      else rest
  }

  /** prev(next(m)) comes back to m's timestamp, though not necessarily
      to m itself when several records share that timestamp. */
  lemma {:induction false} NextThenPrev(s: seq<Message>, k: nat)
    requires k < |s| && LeastAbove(s, s[k].timestamp).Some?
    ensures GreatestBelow(s, LeastAbove(s, s[k].timestamp).value.timestamp).Some?
    ensures GreatestBelow(s, LeastAbove(s, s[k].timestamp).value.timestamp).value.timestamp == s[k].timestamp
  {
    var n := LeastAbove(s, s[k].timestamp).value;
    var p := GreatestBelow(s, n.timestamp);
    assert s[k].timestamp < n.timestamp;
    var j :| 0 <= j < |s| && s[j] == p.value;
  }
}
