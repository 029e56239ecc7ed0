/** Global regular-expression search (`String.prototype.match` and repeated `RegExp.exec` with
    the `g` flag), independent of the pattern: the search finds the leftmost match at or after
    `lastIndex`, reports it, resumes at the end of that match, and stops at the first failure. */
module Scanning {
  import opened Wrappers

  datatype Span = Span(start: nat, end: nat)

  /** A match found at some position: where it ends and what the search records for it. */
  datatype Hit<M> = Hit(end: nat, info: M)

  /** A pattern's matches over a text of length |t| - 1: entry p is the match that starts at
      p, if one does. Every match is non-empty and ends inside the text. */
  predicate ValidTable<M>(t: seq<Option<Hit<M>>>) {
    forall p :: 0 <= p < |t| && t[p].Some? ==> p < t[p].value.end < |t|
  }

  /** f gives, for every position of a text of length n - 1, the match starting there, if any;
      each such match is non-empty and ends inside the text. */
  ghost predicate HitsValid<M>(f: nat -> Option<Hit<M>>, n: nat) {
    forall p: nat :: p < n && f(p).Some? ==> p < f(p).value.end < n
  }

  /** The table of f at positions from..n-1. */
  function TableFrom<M>(f: nat -> Option<Hit<M>>, from: nat, n: nat): (t: seq<Option<Hit<M>>>)
    requires from <= n && HitsValid(f, n)
    ensures |t| == n - from
    ensures forall i :: 0 <= i < |t| && t[i].Some? ==> from + i < t[i].value.end < n
    decreases n - from
  {
    if from == n then []
    else
      var rest := TableFrom(f, from + 1, n);
      assert forall i :: 0 < i <= |rest| ==> ([f(from)] + rest)[i] == rest[i - 1];
      [f(from)] + rest
  }

  lemma {:induction false} TableFromAt<M>(f: nat -> Option<Hit<M>>, from: nat, n: nat, p: nat)
    requires from <= p < n && HitsValid(f, n)
    ensures TableFrom(f, from, n)[p - from] == f(p)
    decreases p - from
  {
    if from < p {
      TableFromAt(f, from + 1, n, p);
      assert TableFrom(f, from, n)[p - from] == TableFrom(f, from + 1, n)[p - from - 1];
    }
  }

  /** The table of f at every position. */
  function Table<M>(f: nat -> Option<Hit<M>>, n: nat): (t: seq<Option<Hit<M>>>)
    requires HitsValid(f, n)
    ensures |t| == n && ValidTable(t)
  {
    TableFrom(f, 0, n)
  }

  lemma TableAt<M>(f: nat -> Option<Hit<M>>, n: nat, p: nat)
    requires p < n && HitsValid(f, n)
    ensures Table(f, n)[p] == f(p)
  {
    TableFromAt(f, 0, n, p);
  }

  /** The leftmost match start at or after `from`. */
  function Leftmost<M>(t: seq<Option<Hit<M>>>, from: nat): (r: Option<nat>)
    requires from <= |t|
    ensures r.Some? ==> from <= r.value < |t| && t[r.value].Some?
    ensures forall p :: from <= p < |t| && (r.None? || p < r.value) ==> t[p].None?
    decreases |t| - from
  {
    if from == |t| then None
    else if t[from].Some? then Some(from)
    else Leftmost(t, from + 1)
  }

  lemma {:induction false} LeftmostAt<M>(t: seq<Option<Hit<M>>>, from: nat, q: nat)
    requires from <= q < |t| && t[q].Some? && forall p :: from <= p < q ==> t[p].None?
    ensures Leftmost(t, from) == Some(q)
    decreases q - from
  {
    if from < q {
      LeftmostAt(t, from + 1, q);
    }
  }

  /** The matches the search reports from `from` on, left to right and non-overlapping. */
  function Spans<M>(t: seq<Option<Hit<M>>>, from: nat): (r: seq<Span>)
    requires ValidTable(t) && from <= |t|
    ensures forall i :: 0 <= i < |r| ==> (from <= r[i].start < r[i].end < |t|
      && t[r[i].start].Some? && t[r[i].start].value.end == r[i].end)
    ensures forall i, j :: 0 <= i < j < |r| ==> r[i].end <= r[j].start
    decreases |t| - from
  {
    match Leftmost(t, from)
    case None => []
    case Some(p) =>
      var rest := Spans(t, t[p].value.end);
      assert forall i :: 0 < i <= |rest| ==> ([Span(p, t[p].value.end)] + rest)[i] == rest[i - 1];
      [Span(p, t[p].value.end)] + rest
  }

  /** The search misses no match except a match that starts inside a reported one. */
  lemma {:induction false} SpansCover<M>(t: seq<Option<Hit<M>>>, from: nat, p: nat)
    requires ValidTable(t) && from <= p < |t| && t[p].Some?
    ensures exists i :: 0 <= i < |Spans(t, from)| && Spans(t, from)[i].start <= p < Spans(t, from)[i].end
    decreases |t| - from
  {
    var q := Leftmost(t, from).value;
    var e := t[q].value.end;
    var r := Spans(t, from);
    assert r == [Span(q, e)] + Spans(t, e);
    if p >= e {
      SpansCover(t, e, p);
      var i :| 0 <= i < |Spans(t, e)| && Spans(t, e)[i].start <= p < Spans(t, e)[i].end;
      assert r[i + 1] == Spans(t, e)[i];
    } else {
      assert r[0] == Span(q, e);
    }
  }

  /** Between two consecutive reports, and before the first, no match starts: each report is
      the leftmost match after the previous one. */
  lemma {:induction false} SpansLeftmost<M>(t: seq<Option<Hit<M>>>, from: nat, i: nat, p: nat)
    requires ValidTable(t) && from <= |t| && i < |Spans(t, from)|
    requires (if i == 0 then from else Spans(t, from)[i - 1].end) <= p < Spans(t, from)[i].start
    ensures t[p].None?
    decreases |t| - from
  {
    var q := Leftmost(t, from).value;
    var e := t[q].value.end;
    assert Spans(t, from) == [Span(q, e)] + Spans(t, e);
    if i > 0 {
      if i > 1 {
        assert Spans(t, from)[i - 1] == Spans(t, e)[i - 2];
      } else {
        assert Spans(t, from)[0] == Span(q, e);
      }
      assert Spans(t, from)[i] == Spans(t, e)[i - 1];
      SpansLeftmost(t, e, i - 1, p);
    }
  }

  /** What the search records, one entry per reported match, left to right. */
  function Collect<M>(t: seq<Option<Hit<M>>>, from: nat): seq<M>
    requires ValidTable(t) && from <= |t|
    decreases |t| - from
  {
    match Leftmost(t, from)
    case None => []
    case Some(p) => [t[p].value.info] + Collect(t, t[p].value.end)
  }

  lemma CollectStep<M>(t: seq<Option<Hit<M>>>, from: nat)
    requires ValidTable(t) && from <= |t| && Leftmost(t, from).Some?
    ensures var p := Leftmost(t, from).value;
      Collect(t, from) == [t[p].value.info] + Collect(t, t[p].value.end)
  {
  }

  /** The records are those of the reported matches, one for one. */
  lemma {:induction false} CollectSpans<M>(t: seq<Option<Hit<M>>>, from: nat)
    requires ValidTable(t) && from <= |t|
    ensures |Collect(t, from)| == |Spans(t, from)|
    ensures forall i :: 0 <= i < |Spans(t, from)| ==> Collect(t, from)[i] == t[Spans(t, from)[i].start].value.info
    decreases |t| - from
  {
    match Leftmost(t, from)
    case None =>
    case Some(p) =>
      var e := t[p].value.end;
      CollectSpans(t, e);
      assert Spans(t, from) == [Span(p, e)] + Spans(t, e);
      assert Collect(t, from) == [t[p].value.info] + Collect(t, e);
  }
}
