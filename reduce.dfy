/**
 * The two maximum reductions of `find_largest_number_in_pdf`: the page
 * maximum, updated candidate by candidate, and the document maximum,
 * updated page by page. Both replace the running maximum only on a
 * strictly larger value, so the first of equal candidates is kept.
 */
module Reduce {
  import opened Wrappers
  import opened Normalizer

  /** One step of the page maximum: x replaces the maximum so far when there is none or when x is strictly greater. */
  function Better(acc: Option<RecognizedNumber>, x: RecognizedNumber): (r: Option<RecognizedNumber>)
    ensures r.Some? && (r == Some(x) || r == acc)
    ensures acc.Some? ==> acc.value.value <= r.value.value && x.value <= r.value.value
    ensures r == acc <==> acc.Some? && x.value <= acc.value.value
  {
    if acc.None? || acc.value.value < x.value then Some(x) else acc
  }

  /** The page-maximum update applied to xs in order, starting from acc. */
  function FoldMax(acc: Option<RecognizedNumber>, xs: seq<RecognizedNumber>): Option<RecognizedNumber>
    decreases |xs|
  {
    if xs == [] then acc else Better(FoldMax(acc, xs[..|xs| - 1]), xs[|xs| - 1])
  }

  /** The page maximum of a list of candidates, starting from `None`. */
  function MaxOf(xs: seq<RecognizedNumber>): Option<RecognizedNumber> {
    FoldMax(None, xs)
  }

  /** Folding one more candidate is one more update. */
  lemma FoldMaxSnoc(acc: Option<RecognizedNumber>, xs: seq<RecognizedNumber>, x: RecognizedNumber)
    ensures FoldMax(acc, xs + [x]) == Better(FoldMax(acc, xs), x)
  {
    assert (xs + [x])[..|xs|] == xs;
  }

  /** Folding two lists one after the other is folding their concatenation. */
  lemma {:induction false} FoldMaxAppend(acc: Option<RecognizedNumber>, xs: seq<RecognizedNumber>, ys: seq<RecognizedNumber>)
    ensures FoldMax(acc, xs + ys) == FoldMax(FoldMax(acc, xs), ys)
    decreases |ys|
  {
    if ys == [] {
      assert xs + ys == xs;
    } else {
      var y := ys[|ys| - 1];
      var front := ys[..|ys| - 1];
      assert ys == front + [y];
      assert xs + ys == (xs + front) + [y];
      FoldMaxSnoc(acc, xs + front, y);
      FoldMaxAppend(acc, xs, front);
      FoldMaxSnoc(FoldMax(acc, xs), front, y);
    }
  }

  /** xs[k] has the greatest value of xs, and every earlier candidate is strictly smaller. */
  predicate IsEarliestMax(xs: seq<RecognizedNumber>, k: int) {
    0 <= k < |xs| &&
    (forall j :: 0 <= j < |xs| ==> xs[j].value <= xs[k].value) &&
    (forall j :: 0 <= j < k ==> xs[j].value < xs[k].value)
  }

  /**
   * The page maximum is `None` exactly when there is no candidate, and
   * otherwise the candidate of greatest value that comes first.
   */
  lemma {:induction false} MaxOfIsEarliestMax(xs: seq<RecognizedNumber>)
    ensures MaxOf(xs).None? <==> xs == []
    ensures xs != [] ==> exists k :: IsEarliestMax(xs, k) && MaxOf(xs) == Some(xs[k])
    decreases |xs|
  {
    if xs != [] {
      var front := xs[..|xs| - 1];
      var x := xs[|xs| - 1];
      MaxOfIsEarliestMax(front);
      if front == [] {
        assert IsEarliestMax(xs, 0);
      } else {
        var k :| IsEarliestMax(front, k) && MaxOf(front) == Some(front[k]);
        if front[k].value < x.value {
          assert IsEarliestMax(xs, |xs| - 1);
        } else {
          assert IsEarliestMax(xs, k);
        }
      }
    }
  }

  /**
   * One step of the document maximum: a page maximum is taken when there is
   * no maximum yet (even when it is itself None), or when it exists and is
   * strictly greater than the maximum so far.
   */
  function DocStep(acc: Option<RecognizedNumber>, pm: Option<RecognizedNumber>): (r: Option<RecognizedNumber>)
    ensures r == acc || r == pm
    ensures pm.None? ==> r == acc
    ensures pm.Some? ==> r == Better(acc, pm.value)
  {
    if acc.None? then pm
    else if pm.Some? && acc.value.value < pm.value.value then pm
    else acc
  }

  /** The document maximum over the page maxima in page order. */
  function DocFold(pms: seq<Option<RecognizedNumber>>): Option<RecognizedNumber>
    decreases |pms|
  {
    if pms == [] then None else DocStep(DocFold(pms[..|pms| - 1]), pms[|pms| - 1])
  }

  /** Extending the page maxima by one page is one more document-maximum update. */
  lemma DocFoldStep(pms: seq<Option<RecognizedNumber>>, i: nat)
    requires i < |pms|
    ensures DocFold(pms[..i + 1]) == DocStep(DocFold(pms[..i]), pms[i])
  {
    assert pms[..i + 1][..i] == pms[..i];
  }

  /** Folding the candidates of one page onto a running maximum is one document-maximum update with that page's maximum. */
  lemma {:induction false} FoldMaxIsDocStep(acc: Option<RecognizedNumber>, xs: seq<RecognizedNumber>)
    ensures FoldMax(acc, xs) == DocStep(acc, MaxOf(xs))
    decreases |xs|
  {
    if xs != [] {
      var front := xs[..|xs| - 1];
      FoldMaxIsDocStep(acc, front);
      MaxOfIsEarliestMax(front);
    }
  }

  /** The concatenation of the blocks of candidates, in order. */
  function Flatten(blocks: seq<seq<RecognizedNumber>>): (xs: seq<RecognizedNumber>)
    decreases |blocks|
  {
    if blocks == [] then [] else Flatten(blocks[..|blocks| - 1]) + blocks[|blocks| - 1]
  }

  /** The maximum of each block. */
  function BlockMaxes(blocks: seq<seq<RecognizedNumber>>): (pms: seq<Option<RecognizedNumber>>)
    ensures |pms| == |blocks|
    ensures forall i :: 0 <= i < |blocks| ==> pms[i] == MaxOf(blocks[i])
  {
    seq(|blocks|, i requires 0 <= i < |blocks| => MaxOf(blocks[i]))
  }

  /**
   * Taking the maximum of each page and then the document maximum of those
   * is the same as the page-maximum fold over all candidates of the document.
   */
  lemma {:induction false} DocFoldOfBlockMaxes(blocks: seq<seq<RecognizedNumber>>)
    ensures DocFold(BlockMaxes(blocks)) == MaxOf(Flatten(blocks))
    decreases |blocks|
  {
    if blocks != [] {
      var front := blocks[..|blocks| - 1];
      var b := blocks[|blocks| - 1];
      DocFoldOfBlockMaxes(front);
      assert BlockMaxes(blocks)[..|blocks| - 1] == BlockMaxes(front);
      FoldMaxIsDocStep(MaxOf(Flatten(front)), b);
      FoldMaxAppend(None, Flatten(front), b);
    }
  }

  /** pms[p] is present, no present entry is greater, and every present entry before p is strictly smaller. */
  predicate IsEarliestGreatest(pms: seq<Option<RecognizedNumber>>, p: int) {
    0 <= p < |pms| && pms[p].Some? &&
    (forall q :: 0 <= q < |pms| && pms[q].Some? ==> pms[q].value.value <= pms[p].value.value) &&
    (forall q :: 0 <= q < p && pms[q].Some? ==> pms[q].value.value < pms[p].value.value)
  }

  /** The document maximum is `None` exactly when every page maximum is. */
  lemma {:induction false} DocFoldIsNoneWhenAllNone(pms: seq<Option<RecognizedNumber>>)
    ensures DocFold(pms).None? <==> forall q :: 0 <= q < |pms| ==> pms[q].None?
    decreases |pms|
  {
    if pms != [] {
      var front := pms[..|pms| - 1];
      DocFoldIsNoneWhenAllNone(front);
      assert forall q :: 0 <= q < |front| ==> front[q] == pms[q];
    }
  }

  /** Otherwise it is the earliest page maximum of greatest value. */
  lemma {:induction false} DocFoldIsEarliestGreatest(pms: seq<Option<RecognizedNumber>>)
    ensures DocFold(pms).Some? ==> exists p :: IsEarliestGreatest(pms, p) && DocFold(pms) == pms[p]
    decreases |pms|
  {
    if pms != [] {
      var front := pms[..|pms| - 1];
      var last := |pms| - 1;
      DocFoldIsEarliestGreatest(front);
      DocFoldIsNoneWhenAllNone(front);
      assert forall q :: 0 <= q < |front| ==> front[q] == pms[q];
      assert DocFold(pms) == DocStep(DocFold(front), pms[last]);
      if DocFold(front).None? {
        if pms[last].Some? {
          assert IsEarliestGreatest(pms, last);
        }
      } else {
        var p :| IsEarliestGreatest(front, p) && DocFold(front) == front[p];
        if pms[last].Some? && front[p].value.value < pms[last].value.value {
          assert IsEarliestGreatest(pms, last);
        } else {
          assert IsEarliestGreatest(pms, p);
        }
      }
    }
  }
}
