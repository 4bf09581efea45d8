/**
 * The braid word of a whole path is built sub-interval by sub-interval:
 * `braid` is extended by the letters of each sub-interval in turn. When the
 * letters of a sub-interval cannot be computed, that failure is the result.
 */
module Words {
  import opened Results

  /** The words of consecutive sub-intervals appended in order, or the first failure among them. */
  function Join(rs: seq<Result<seq<int>>>): Result<seq<int>>
    decreases |rs|
  {
    if rs == [] then Ok([])
    else
      match Join(rs[..|rs| - 1])
      case Fail(e) => Fail(e)
      case Ok(w) =>
        match rs[|rs| - 1]
        case Fail(e) => Fail(e)
        case Ok(v) => Ok(w + v)
  }

  /** Appending the letters of one more sub-interval. */
  lemma JoinStepOk(rs: seq<Result<seq<int>>>, i: int, w: seq<int>, v: seq<int>)
    requires 0 <= i < |rs| && Join(rs[..i]) == Ok(w) && rs[i] == Ok(v)
    ensures Join(rs[..i + 1]) == Ok(w + v)
  {
    assert rs[..i + 1][..i] == rs[..i];
  }

  /** A failing sub-interval after successful ones is the failure of the word. */
  lemma JoinStepFail(rs: seq<Result<seq<int>>>, i: int)
    requires 0 <= i < |rs| && Join(rs[..i]).Ok? && rs[i].Fail?
    ensures Join(rs[..i + 1]) == rs[i]
  {
    assert rs[..i + 1][..i] == rs[..i];
  }

  /** Once the word of the first `m` sub-intervals fails, the word of all of them fails the same way. */
  lemma {:induction false} JoinFails(rs: seq<Result<seq<int>>>, m: int)
    requires 0 <= m <= |rs| && Join(rs[..m]).Fail?
    ensures Join(rs) == Join(rs[..m])
    decreases |rs| - m
  {
    if m < |rs| {
      var front := rs[..|rs| - 1];
      assert front[..m] == rs[..m];
      JoinFails(front, m);
    } else {
      assert rs[..m] == rs;
    }
  }

  /** The word exists exactly when every sub-interval has its letters. */
  lemma {:induction false} JoinOk(rs: seq<Result<seq<int>>>)
    ensures Join(rs).Ok? <==> forall k :: 0 <= k < |rs| ==> rs[k].Ok?
    decreases |rs|
  {
    if rs != [] {
      var front := rs[..|rs| - 1];
      JoinOk(front);
      assert forall k :: 0 <= k < |front| ==> front[k] == rs[k];
    }
  }

  /** A failure of the word is the failure of the first sub-interval that fails. */
  lemma {:induction false} JoinFirstFailure(rs: seq<Result<seq<int>>>, k: int)
    requires 0 <= k < |rs| && rs[k].Fail?
    requires forall k' :: 0 <= k' < k ==> rs[k'].Ok?
    ensures Join(rs) == rs[k]
    decreases |rs|
  {
    var front := rs[..|rs| - 1];
    if k < |rs| - 1 {
      assert forall k' :: 0 <= k' <= k ==> front[k'] == rs[k'];
      JoinFirstFailure(front, k);
    } else {
      JoinOk(front);
    }
  }

  function Sum(ns: seq<int>): int
    decreases |ns|
  {
    if ns == [] then 0 else Sum(ns[..|ns| - 1]) + ns[|ns| - 1]
  }

  /** When sub-interval `k` contributes `ns[k]` letters, the word has `Sum(ns)` letters. */
  lemma {:induction false} JoinLength(rs: seq<Result<seq<int>>>, ns: seq<int>)
    requires |ns| == |rs|
    requires forall k :: 0 <= k < |rs| && rs[k].Ok? ==> |rs[k].value| == ns[k]
    ensures Join(rs).Ok? ==> |Join(rs).value| == Sum(ns)
    decreases |rs|
  {
    if rs != [] {
      var front, nfront := rs[..|rs| - 1], ns[..|ns| - 1];
      assert forall k :: 0 <= k < |front| ==> front[k] == rs[k] && nfront[k] == ns[k];
      JoinLength(front, nfront);
    }
  }
}
