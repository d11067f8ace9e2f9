/**
 * SQLite's `column LIKE '%kw%'` with a keyword free of wildcards: `kw`
 * occurs somewhere in `column`, where upper- and lower-case ASCII letters
 * compare equal and every other character compares only with itself.
 */
module Like {

  /** SQLite's LIKE folds only the 26 ASCII letters. */
  function Fold(c: char): char {
    if 'A' <= c <= 'Z' then (c as int - 'A' as int + 'a' as int) as char else c
  }

  /** `kw` matches `hay` at offset `i`, ignoring ASCII case. */
  ghost predicate OccursAt(hay: string, kw: string, i: int) {
    0 <= i && i + |kw| <= |hay| &&
    forall k :: 0 <= k < |kw| ==> Fold(hay[i + k]) == Fold(kw[k])
  }

  predicate StartsWithFolded(hay: string, kw: string) {
    |kw| <= |hay| && forall k :: 0 <= k < |kw| ==> Fold(hay[k]) == Fold(kw[k])
  }

  /** `hay LIKE '%' || kw || '%'`, tried at each offset from the left. */
  predicate Contains(hay: string, kw: string)
    ensures |kw| == 0 ==> Contains(hay, kw)
    ensures Contains(hay, kw) ==> |kw| <= |hay|
    decreases |hay|
  {
    StartsWithFolded(hay, kw) || (|hay| > 0 && Contains(hay[1..], kw))
  }

  /** The scan finds `kw` exactly when it occurs at some offset. */
  lemma {:induction false} ContainsIff(hay: string, kw: string)
    ensures Contains(hay, kw) <==> exists i :: OccursAt(hay, kw, i)
    decreases |hay|
  {
    if StartsWithFolded(hay, kw) {
      assert OccursAt(hay, kw, 0);
    }
    if |hay| > 0 {
      ContainsIff(hay[1..], kw);
      if Contains(hay[1..], kw) {
        var i :| OccursAt(hay[1..], kw, i);
        assert OccursAt(hay, kw, i + 1);
      }
    }
    if exists i :: OccursAt(hay, kw, i) {
      var i :| OccursAt(hay, kw, i);
      if i > 0 {
        assert OccursAt(hay[1..], kw, i - 1);
      } else {
        assert StartsWithFolded(hay, kw);
      }
    }
  }

  /** Every text contains the empty keyword. */
  lemma ContainsEmpty(hay: string)
    ensures Contains(hay, "")
  {
  }

  /** A keyword found verbatim inside the text is found by the scan. */
  lemma ContainsInfix(before: string, kw: string, after: string)
    ensures Contains(before + kw + after, kw)
  {
    var hay := before + kw + after;
    assert forall k :: 0 <= k < |kw| ==> hay[|before| + k] == kw[k];
    assert OccursAt(hay, kw, |before|);
    ContainsIff(hay, kw);
  }

  /** Two keywords that differ only in ASCII case match the same texts. */
  lemma {:induction false} ContainsIgnoresCase(hay: string, kw: string, kw': string)
    requires |kw| == |kw'|
    requires forall k :: 0 <= k < |kw| ==> Fold(kw[k]) == Fold(kw'[k])
    ensures Contains(hay, kw) == Contains(hay, kw')
    decreases |hay|
  {
    assert StartsWithFolded(hay, kw) == StartsWithFolded(hay, kw');
    if |hay| > 0 {
      ContainsIgnoresCase(hay[1..], kw, kw');
    }
  }
}
