/** Half-open index ranges and lists of them. */
module Ranges {

  datatype Range = Range(start: nat, end: nat)
  {
    predicate Has(x: nat) {
      start <= x < end
    }
  }

  /** `x` lies in one of the ranges. */
  ghost predicate Covers(rs: seq<Range>, x: nat) {
    exists i :: 0 <= i < |rs| && rs[i].Has(x)
  }

  /** Nonempty ranges in strictly descending order, no two of them overlapping or touching. */
  ghost predicate Descending(rs: seq<Range>) {
    && (forall i :: 0 <= i < |rs| ==> rs[i].start < rs[i].end)
    && (forall i, j :: 0 <= i < j < |rs| ==> rs[j].end < rs[i].start)
  }

  /** Nonempty ranges in strictly ascending order, no two of them overlapping or touching. */
  ghost predicate Ascending(rs: seq<Range>) {
    && (forall i :: 0 <= i < |rs| ==> rs[i].start < rs[i].end)
    && (forall i, j :: 0 <= i < j < |rs| ==> rs[i].end < rs[j].start)
  }

  lemma CoversSnoc(rs: seq<Range>, r: Range, x: nat)
    ensures Covers(rs + [r], x) <==> Covers(rs, x) || r.Has(x)
  {
    if r.Has(x) {
      assert (rs + [r])[|rs|].Has(x);
    }
    if Covers(rs, x) {
      var i :| 0 <= i < |rs| && rs[i].Has(x);
      assert (rs + [r])[i].Has(x);
    }
  }

  lemma CoversCons(r: Range, rs: seq<Range>, x: nat)
    ensures Covers([r] + rs, x) <==> r.Has(x) || Covers(rs, x)
  {
    if r.Has(x) {
      assert ([r] + rs)[0].Has(x);
    }
    if Covers(rs, x) {
      var i :| 0 <= i < |rs| && rs[i].Has(x);
      assert ([r] + rs)[i + 1].Has(x);
    }
  }

  lemma AscendingCons(r: Range, rs: seq<Range>)
    requires Ascending(rs) && r.start < r.end
    requires rs != [] ==> r.end < rs[0].start
    ensures Ascending([r] + rs)
  {
    var out := [r] + rs;
    assert forall i :: 0 < i < |out| ==> out[i] == rs[i - 1];
    assert forall i :: 0 <= i < |rs| ==> rs[0].start <= rs[i].start;
  }

  /** The ascending list of maximal runs is determined by the indexes it covers. */
  lemma {:induction false} AscendingIsUnique(a: seq<Range>, b: seq<Range>)
    requires Ascending(a) && Ascending(b)
    requires forall x: nat :: Covers(a, x) <==> Covers(b, x)
    ensures a == b
    decreases |a|
  {
    StartIsCovered(a);
    StartIsCovered(b);
    if a != [] {
      FirstRun(a, b);
      FirstRun(b, a);
      assert a == [a[0]] + a[1..] && b == [b[0]] + b[1..];
      forall x: nat
        ensures Covers(a[1..], x) <==> Covers(b[1..], x)
      {
        CoversCons(a[0], a[1..], x);
        CoversCons(b[0], b[1..], x);
        TailIsAbove(a, x);
        TailIsAbove(b, x);
      }
      AscendingIsUnique(a[1..], b[1..]);
    }
  }

  lemma StartIsCovered(a: seq<Range>)
    requires Ascending(a)
    ensures a != [] ==> Covers(a, a[0].start)
  {
    assert a != [] ==> a[0].Has(a[0].start);
  }

  lemma TailIsAbove(a: seq<Range>, x: nat)
    requires Ascending(a) && a != []
    ensures Covers(a[1..], x) ==> a[0].end < x
  {
  }

  /** Two lists covering the same indexes start alike: `b`'s first run reaches no further left and no less far right. */
  lemma FirstRun(a: seq<Range>, b: seq<Range>)
    requires Ascending(a) && Ascending(b) && a != []
    requires forall x: nat :: Covers(a, x) <==> Covers(b, x)
    ensures b != [] && b[0].start <= a[0].start && a[0].end <= b[0].end
  {
    assert a[0].Has(a[0].start) && Covers(a, a[0].start);
    assert Covers(b, a[0].start);
    assert b[0].Has(b[0].start) && Covers(b, b[0].start);
    assert Covers(a, b[0].start);
    var x := b[0].end;
    assert a[0].Has(x) ==> Covers(a, x);
    assert !Covers(b, x);
  }
}
