/** An entity store: an ordered list of records, each module owning one per
    entity type. Every handler of the dashboard is one of three list
    operations: keep the records a test accepts (`filter`), rewrite the
    records a test selects and leave the rest alone (`map` with an id
    comparison), or fold a numeric field (`reduce`). They are defined here
    once, with the facts the modules build on. */
module Store {
  import opened Wrappers

  /** How many records satisfy `p` (`xs.filter(p).length`). */
  function Count<T>(xs: seq<T>, p: T -> bool): (n: nat)
    ensures n <= |xs|
    ensures n == 0 <==> forall i :: 0 <= i < |xs| ==> !p(xs[i])
    ensures n == |xs| <==> forall i :: 0 <= i < |xs| ==> p(xs[i])
    decreases |xs|
  {
    if |xs| == 0 then 0
    else (if p(xs[0]) then 1 else 0) + Count(xs[1..], p)
  }

  /** `a` is `b` with some records left out, the rest in their order. */
  ghost predicate IsSubseq<T>(a: seq<T>, b: seq<T>)
    decreases |b|
  {
    if |a| == 0 then true
    else if |b| == 0 then false
    else (a[0] == b[0] && IsSubseq(a[1..], b[1..])) || IsSubseq(a, b[1..])
  }

  /** `xs.filter(keep)`: the records `keep` accepts, in their order. */
  function Filter<T>(xs: seq<T>, keep: T -> bool): (r: seq<T>)
    ensures |r| == Count(xs, keep)
    ensures forall i :: 0 <= i < |r| ==> r[i] in xs && keep(r[i])
    ensures forall i :: 0 <= i < |xs| && keep(xs[i]) ==> xs[i] in r
    ensures IsSubseq(r, xs)
    decreases |xs|
  {
    if |xs| == 0 then []
    else
      assert xs == [xs[0]] + xs[1..];
      if keep(xs[0]) then
        var rest := Filter(xs[1..], keep);
        assert ([xs[0]] + rest)[1..] == rest;
        [xs[0]] + rest
      else Filter(xs[1..], keep)
  }

  /** `xs.map(x => sel(x) ? f(x) : x)`: the selected records rewritten, every
      other record, the length and the order untouched. */
  function MapWhere<T>(xs: seq<T>, sel: T -> bool, f: T -> T): (r: seq<T>)
    ensures |r| == |xs|
    ensures forall i :: 0 <= i < |xs| ==> r[i] == (if sel(xs[i]) then f(xs[i]) else xs[i])
    decreases |xs|
  {
    if |xs| == 0 then []
    else [if sel(xs[0]) then f(xs[0]) else xs[0]] + MapWhere(xs[1..], sel, f)
  }

  /** `xs.reduce((sum, x) => sum + f(x), 0)` on a real-valued field. */
  function SumReal<T>(xs: seq<T>, f: T -> real): real
    decreases |xs|
  {
    if |xs| == 0 then 0.0 else f(xs[0]) + SumReal(xs[1..], f)
  }

  /** `xs.reduce((sum, x) => sum + f(x), 0)` on an integer-valued field. */
  function SumInt<T>(xs: seq<T>, f: T -> int): int
    decreases |xs|
  {
    if |xs| == 0 then 0 else f(xs[0]) + SumInt(xs[1..], f)
  }

  /** `xs.find(sel)`: the first record `sel` accepts, if any. */
  function Find<T>(xs: seq<T>, sel: T -> bool): (r: Option<T>)
    ensures r.None? <==> forall i :: 0 <= i < |xs| ==> !sel(xs[i])
    ensures r.Some? ==> exists i :: 0 <= i < |xs| && xs[i] == r.value && sel(xs[i])
                          && forall j :: 0 <= j < i ==> !sel(xs[j])
    decreases |xs|
  {
    if |xs| == 0 then None
    else if sel(xs[0]) then Some(xs[0])
    else
      var r := Find(xs[1..], sel);
      if r.Some? then
        ghost var i :| 0 <= i < |xs[1..]| && xs[1..][i] == r.value && sel(xs[1..][i])
                       && forall j :: 0 <= j < i ==> !sel(xs[1..][j]);
        assert xs[i + 1] == r.value && forall j :: 0 <= j < i + 1 ==> !sel(xs[j]);
        r
      else r
  }

  /** No two records of the store share an identifier. */
  ghost predicate UniqueIds<T>(xs: seq<T>, id: T -> string) {
    forall i, j :: 0 <= i < j < |xs| ==> id(xs[i]) != id(xs[j])
  }

  /** `k` is the identifier of no record of the store. */
  ghost predicate FreshId<T>(xs: seq<T>, id: T -> string, k: string) {
    forall i :: 0 <= i < |xs| ==> id(xs[i]) != k
  }

  lemma {:induction false} CountAppend<T>(xs: seq<T>, ys: seq<T>, p: T -> bool)
    ensures Count(xs + ys, p) == Count(xs, p) + Count(ys, p)
    decreases |xs|
  {
    if |xs| > 0 {
      CountAppend(xs[1..], ys, p);
      assert (xs + ys)[1..] == xs[1..] + ys;
    } else {
      assert xs + ys == ys;
    }
  }

  /** A test and its negation split the store: together they count every record. */
  lemma {:induction false} CountComplement<T>(xs: seq<T>, p: T -> bool, q: T -> bool)
    requires forall i :: 0 <= i < |xs| ==> (p(xs[i]) <==> !q(xs[i]))
    ensures Count(xs, p) + Count(xs, q) == |xs|
    decreases |xs|
  {
    if |xs| > 0 {
      CountComplement(xs[1..], p, q);
    }
  }

  /** Three tests of which every record meets exactly one count every record once. */
  lemma {:induction false} CountPartition3<T>(xs: seq<T>, p: T -> bool, q: T -> bool, r: T -> bool)
    requires forall i :: 0 <= i < |xs| ==>
      (p(xs[i]) || q(xs[i]) || r(xs[i])) && !(p(xs[i]) && q(xs[i]))
      && !(p(xs[i]) && r(xs[i])) && !(q(xs[i]) && r(xs[i]))
    ensures Count(xs, p) + Count(xs, q) + Count(xs, r) == |xs|
    decreases |xs|
  {
    if |xs| > 0 {
      CountPartition3(xs[1..], p, q, r);
    }
  }

  /** A test implied by another counts at least as many records. */
  lemma {:induction false} CountMonotone<T>(xs: seq<T>, p: T -> bool, q: T -> bool)
    requires forall i :: 0 <= i < |xs| ==> p(xs[i]) ==> q(xs[i])
    ensures Count(xs, p) <= Count(xs, q)
    decreases |xs|
  {
    if |xs| > 0 {
      CountMonotone(xs[1..], p, q);
    }
  }

  lemma {:induction false} SumRealAppend<T>(xs: seq<T>, x: T, f: T -> real)
    ensures SumReal(xs + [x], f) == SumReal(xs, f) + f(x)
    decreases |xs|
  {
    if |xs| > 0 {
      SumRealAppend(xs[1..], x, f);
      assert (xs + [x])[1..] == xs[1..] + [x];
    }
  }

  /** A sum of non-negative terms is non-negative, at least each of its
      terms, and 0 exactly when every term is 0. */
  lemma {:induction false} SumIntBounds<T>(xs: seq<T>, f: T -> int)
    requires forall i :: 0 <= i < |xs| ==> f(xs[i]) >= 0
    ensures SumInt(xs, f) >= 0
    ensures forall i :: 0 <= i < |xs| ==> f(xs[i]) <= SumInt(xs, f)
    ensures SumInt(xs, f) == 0 <==> forall i :: 0 <= i < |xs| ==> f(xs[i]) == 0
    decreases |xs|
  {
    if |xs| > 0 {
      SumIntBounds(xs[1..], f);
      assert forall i :: 1 <= i < |xs| ==> xs[i] == xs[1..][i - 1];
    }
  }

  /** The same for real-valued terms, without the zero case. */
  lemma {:induction false} SumRealBounds<T>(xs: seq<T>, f: T -> real)
    requires forall i :: 0 <= i < |xs| ==> f(xs[i]) >= 0.0
    ensures SumReal(xs, f) >= 0.0
    ensures forall i :: 0 <= i < |xs| ==> f(xs[i]) <= SumReal(xs, f)
    decreases |xs|
  {
    if |xs| > 0 {
      SumRealBounds(xs[1..], f);
      assert forall i :: 1 <= i < |xs| ==> xs[i] == xs[1..][i - 1];
    }
  }

  lemma {:induction false} SumIntAppend<T>(xs: seq<T>, x: T, f: T -> int)
    ensures SumInt(xs + [x], f) == SumInt(xs, f) + f(x)
    decreases |xs|
  {
    if |xs| > 0 {
      SumIntAppend(xs[1..], x, f);
      assert (xs + [x])[1..] == xs[1..] + [x];
    }
  }

  /** Rewriting the selected records so that each gains one in field `f`
      raises the total of `f` by one per selected record and by nothing else. */
  lemma {:induction false} SumIntMapWhereIncrement<T>(xs: seq<T>, sel: T -> bool, g: T -> T, f: T -> int)
    requires forall i :: 0 <= i < |xs| ==> sel(xs[i]) ==> f(g(xs[i])) == f(xs[i]) + 1
    ensures SumInt(MapWhere(xs, sel, g), f) == SumInt(xs, f) + Count(xs, sel)
    decreases |xs|
  {
    if |xs| > 0 {
      var tail := xs[1..];
      assert forall i :: 0 <= i < |tail| ==> tail[i] == xs[i + 1];
      SumIntMapWhereIncrement(tail, sel, g, f);
      var r := MapWhere(xs, sel, g);
      assert r[1..] == MapWhere(tail, sel, g);
    }
  }

  /** Rewriting records without touching field `f` leaves its total alone. */
  lemma {:induction false} SumIntMapWhereUnchanged<T>(xs: seq<T>, sel: T -> bool, g: T -> T, f: T -> int)
    requires forall i :: 0 <= i < |xs| ==> sel(xs[i]) ==> f(g(xs[i])) == f(xs[i])
    ensures SumInt(MapWhere(xs, sel, g), f) == SumInt(xs, f)
    decreases |xs|
  {
    if |xs| > 0 {
      var tail := xs[1..];
      assert forall i :: 0 <= i < |tail| ==> tail[i] == xs[i + 1];
      SumIntMapWhereUnchanged(tail, sel, g, f);
      assert MapWhere(xs, sel, g)[1..] == MapWhere(tail, sel, g);
    }
  }

  /** The same for a real-valued field. */
  lemma {:induction false} SumRealMapWhereUnchanged<T>(xs: seq<T>, sel: T -> bool, g: T -> T, f: T -> real)
    requires forall i :: 0 <= i < |xs| ==> sel(xs[i]) ==> f(g(xs[i])) == f(xs[i])
    ensures SumReal(MapWhere(xs, sel, g), f) == SumReal(xs, f)
    decreases |xs|
  {
    if |xs| > 0 {
      var tail := xs[1..];
      assert forall i :: 0 <= i < |tail| ==> tail[i] == xs[i + 1];
      SumRealMapWhereUnchanged(tail, sel, g, f);
      assert MapWhere(xs, sel, g)[1..] == MapWhere(tail, sel, g);
    }
  }

  lemma {:induction false} FilterKeepsFresh<T>(xs: seq<T>, keep: T -> bool, id: T -> string, k: string)
    requires FreshId(xs, id, k)
    ensures FreshId(Filter(xs, keep), id, k)
    decreases |xs|
  {
    if |xs| > 0 {
      assert FreshId(xs[1..], id, k) by {
        forall i | 0 <= i < |xs[1..]| ensures id(xs[1..][i]) != k {
          assert xs[1..][i] == xs[i + 1];
        }
      }
      FilterKeepsFresh(xs[1..], keep, id, k);
    }
  }

  lemma PrependFreshKeepsUnique<T>(x: T, xs: seq<T>, id: T -> string)
    requires UniqueIds(xs, id)
    requires FreshId(xs, id, id(x))
    ensures UniqueIds([x] + xs, id)
  {
    var r := [x] + xs;
    forall i, j | 0 <= i < j < |r| ensures id(r[i]) != id(r[j]) {
      assert r[j] == xs[j - 1];
      if i > 0 { assert r[i] == xs[i - 1]; }
    }
  }

  /** Removing records keeps identifiers unique. */
  lemma {:induction false} FilterKeepsUnique<T>(xs: seq<T>, keep: T -> bool, id: T -> string)
    requires UniqueIds(xs, id)
    ensures UniqueIds(Filter(xs, keep), id)
    decreases |xs|
  {
    if |xs| > 0 {
      var tail := xs[1..];
      assert UniqueIds(tail, id) by {
        forall i, j | 0 <= i < j < |tail| ensures id(tail[i]) != id(tail[j]) {
          assert tail[i] == xs[i + 1] && tail[j] == xs[j + 1];
        }
      }
      FilterKeepsUnique(tail, keep, id);
      if keep(xs[0]) {
        assert FreshId(tail, id, id(xs[0])) by {
          forall i | 0 <= i < |tail| ensures id(tail[i]) != id(xs[0]) {
            assert tail[i] == xs[i + 1];
          }
        }
        FilterKeepsFresh(tail, keep, id, id(xs[0]));
        PrependFreshKeepsUnique(xs[0], Filter(tail, keep), id);
      }
    }
  }

  /** Appending a record under an identifier no record carries keeps
      identifiers unique. */
  lemma AppendFreshKeepsUnique<T>(xs: seq<T>, x: T, id: T -> string)
    requires UniqueIds(xs, id)
    requires FreshId(xs, id, id(x))
    ensures UniqueIds(xs + [x], id)
  {
    var r := xs + [x];
    forall i, j | 0 <= i < j < |r| ensures id(r[i]) != id(r[j]) {
      assert r[i] == xs[i];
      if j < |xs| { assert r[j] == xs[j]; }
    }
  }

  /** Rewriting records without touching their identifiers keeps them unique. */
  lemma MapWhereKeepsUnique<T>(xs: seq<T>, sel: T -> bool, f: T -> T, id: T -> string)
    requires UniqueIds(xs, id)
    requires forall i :: 0 <= i < |xs| ==> id(f(xs[i])) == id(xs[i])
    ensures UniqueIds(MapWhere(xs, sel, f), id)
  {
    var r := MapWhere(xs, sel, f);
    forall i, j | 0 <= i < j < |r| ensures id(r[i]) != id(r[j]) {
      assert id(r[i]) == id(xs[i]) && id(r[j]) == id(xs[j]);
    }
  }
}
