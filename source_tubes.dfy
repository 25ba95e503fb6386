/**
 * The pool of mastermix source tubes and its greedy first-fit depletion
 * (`aspirate_from_tubes`).  A pool is the ordered list of the tubes'
 * available volumes; a tube is named by its position in that list.
 */
module SourceTubes {

  /** One entry of the aspirate list: which tube, and how much is drawn from it. */
  datatype Withdrawal = Withdrawal(tube: nat, vol: real)

  /**
   * What one request does to the pool: the volumes left afterwards, the
   * withdrawals recorded (in tube order), how many tubes the walk visited,
   * and whether the request was met (the loop broke) or the list ran out.
   */
  datatype Depletion = Depletion(after: seq<real>, withdrawals: seq<Withdrawal>, visited: nat, met: bool)

  function Sum(s: seq<real>): real
  {
    if s == [] then 0.0 else s[0] + Sum(s[1..])
  }

  /** Total volume of a list of withdrawals. */
  function Drawn(ws: seq<Withdrawal>): real
  {
    if ws == [] then 0.0 else ws[0].vol + Drawn(ws[1..])
  }

  /** Total volume the withdrawals take from tube `t`. */
  function DrawnFrom(ws: seq<Withdrawal>, t: nat): real
  {
    if ws == [] then 0.0
    else (if ws[0].tube == t then ws[0].vol else 0.0) + DrawnFrom(ws[1..], t)
  }

  ghost predicate Nonnegative(s: seq<real>)
  {
    forall j :: 0 <= j < |s| ==> s[j] >= 0.0
  }

  /** The volume the walk draws from a tube holding `available` while `left` is still wanted. */
  function Take(available: real, left: real): real
  {
    if available >= left then left else available
  }

  /**
   * The walk over the tubes from position `i` on, with `left` still wanted:
   * each tube gives `Take(avail[i], left)`, a non-zero draw is recorded, and
   * the walk stops as soon as nothing is left.
   */
  function DepleteFrom(avail: seq<real>, i: nat, left: real): (d: Depletion)
    requires i <= |avail|
    ensures |d.after| == |avail|
    ensures i <= d.visited <= |avail|
    ensures !d.met ==> d.visited == |avail|
    ensures forall j :: 0 <= j < i ==> d.after[j] == avail[j]
    ensures forall j :: d.visited <= j < |avail| ==> d.after[j] == avail[j]
    decreases |avail| - i
  {
    if i == |avail| then Depletion(avail, [], i, false)
    else
      var take := Take(avail[i], left);
      var avail' := avail[i := avail[i] - take];
      var recorded := if take != 0.0 then [Withdrawal(i, take)] else [];
      if left - take == 0.0 then Depletion(avail', recorded, i + 1, true)
      else
        var d := DepleteFrom(avail', i + 1, left - take);
        d.(withdrawals := recorded + d.withdrawals)
  }

  /** The walk resumed at `d`, after the withdrawals `ws` were already recorded. */
  function Resume(ws: seq<Withdrawal>, d: Depletion): Depletion
  {
    d.(withdrawals := ws + d.withdrawals)
  }

  /** One step of the walk, as a loop that records as it goes takes it. */
  lemma DepleteStep(ws: seq<Withdrawal>, avail: seq<real>, i: nat, left: real)
    requires i < |avail|
    ensures var take := Take(avail[i], left);
      var avail' := avail[i := avail[i] - take];
      var ws' := if take != 0.0 then ws + [Withdrawal(i, take)] else ws;
      && (left - take == 0.0 ==> Resume(ws, DepleteFrom(avail, i, left)) == Depletion(avail', ws', i + 1, true))
      && (left - take != 0.0 ==> Resume(ws, DepleteFrom(avail, i, left)) == Resume(ws', DepleteFrom(avail', i + 1, left - take)))
  {
    var take := Take(avail[i], left);
    var avail' := avail[i := avail[i] - take];
    var recorded := if take != 0.0 then [Withdrawal(i, take)] else [];
    if left - take != 0.0 {
      var d := DepleteFrom(avail', i + 1, left - take);
      assert ws + (recorded + d.withdrawals) == (ws + recorded) + d.withdrawals;
    }
  }

  /** One tube's draw keeps a pool of non-negative volumes non-negative. */
  lemma TakeKeepsNonnegative(avail: seq<real>, i: nat, left: real)
    requires i < |avail| && Nonnegative(avail)
    ensures Nonnegative(avail[i := avail[i] - Take(avail[i], left)])
  {
    var avail' := avail[i := avail[i] - Take(avail[i], left)];
    forall j | 0 <= j < |avail'|
      ensures avail'[j] >= 0.0
    {
      if j == i {
        assert avail'[j] == avail[i] - Take(avail[i], left);
      }
    }
  }

  /** The whole request: walk the pool from its first tube. */
  function Deplete(avail: seq<real>, volume: real): (d: Depletion)
    ensures |d.after| == |avail|
    ensures avail == [] ==> !d.met && d.withdrawals == []
  {
    DepleteFrom(avail, 0, volume)
  }

  lemma {:induction false} SumUpdate(s: seq<real>, j: nat, v: real)
    requires j < |s|
    ensures Sum(s[j := v]) == Sum(s) - s[j] + v
  {
    if j > 0 {
      assert s[j := v][1..] == s[1..][j - 1 := v];
      SumUpdate(s[1..], j - 1, v);
    } else {
      assert s[j := v][1..] == s[1..];
    }
  }

  /** The total of two lists of volumes laid end to end is the sum of their totals. */
  lemma {:induction false} SumAppend(a: seq<real>, b: seq<real>)
    ensures Sum(a + b) == Sum(a) + Sum(b)
    decreases |a|
  {
    if a == [] {
      assert a + b == b;
    } else {
      assert (a + b)[1..] == a[1..] + b;
      SumAppend(a[1..], b);
    }
  }

  lemma {:induction false} SumNonnegative(s: seq<real>)
    requires Nonnegative(s)
    ensures Sum(s) >= 0.0
  {
    if s != [] {
      SumNonnegative(s[1..]);
    }
  }

  /** A pool of non-negative volumes that sums to zero is empty in every tube. */
  lemma {:induction false} ZeroSumMeansEmpty(s: seq<real>)
    requires Nonnegative(s) && Sum(s) == 0.0
    ensures forall j :: 0 <= j < |s| ==> s[j] == 0.0
  {
    if s != [] {
      SumNonnegative(s[1..]);
      ZeroSumMeansEmpty(s[1..]);
      forall j | 0 <= j < |s| ensures s[j] == 0.0 {
        if j > 0 { assert s[j] == s[1..][j - 1]; }
      }
    }
  }

  /** Conservation: the volume that leaves the pool is exactly the volume recorded in the withdrawals. */
  lemma {:induction false} DepleteConserves(avail: seq<real>, i: nat, left: real)
    requires i <= |avail|
    ensures var d := DepleteFrom(avail, i, left);
      Sum(avail) - Sum(d.after) == Drawn(d.withdrawals)
    decreases |avail| - i
  {
    if i < |avail| {
      var d := DepleteFrom(avail, i, left);
      var take := Take(avail[i], left);
      var avail' := avail[i := avail[i] - take];
      var recorded := if take != 0.0 then [Withdrawal(i, take)] else [];
      SumUpdate(avail, i, avail[i] - take);
      DrawnRecorded(i, take);
      if left - take != 0.0 {
        var d' := DepleteFrom(avail', i + 1, left - take);
        assert d.after == d'.after && d.withdrawals == recorded + d'.withdrawals;
        DepleteConserves(avail', i + 1, left - take);
        DrawnAppend(recorded, d'.withdrawals);
      } else {
        assert d.after == avail' && d.withdrawals == recorded;
      }
    }
  }

  /** A met request records exactly the requested volume. */
  lemma {:induction false} DepleteDrawsRequest(avail: seq<real>, i: nat, left: real)
    requires i <= |avail|
    ensures var d := DepleteFrom(avail, i, left);
      d.met ==> Drawn(d.withdrawals) == left
    decreases |avail| - i
  {
    if i < |avail| {
      var d := DepleteFrom(avail, i, left);
      var take := Take(avail[i], left);
      var avail' := avail[i := avail[i] - take];
      var recorded := if take != 0.0 then [Withdrawal(i, take)] else [];
      DrawnRecorded(i, take);
      if left - take != 0.0 {
        var d' := DepleteFrom(avail', i + 1, left - take);
        assert d.withdrawals == recorded + d'.withdrawals && d.met == d'.met;
        DepleteDrawsRequest(avail', i + 1, left - take);
        DrawnAppend(recorded, d'.withdrawals);
      } else {
        assert d.withdrawals == recorded;
      }
    }
  }

  lemma DrawnRecorded(i: nat, take: real)
    ensures Drawn(if take != 0.0 then [Withdrawal(i, take)] else []) == take
  {
    if take != 0.0 {
      assert [Withdrawal(i, take)][1..] == [];
    }
  }

  lemma {:induction false} DrawnAppend(a: seq<Withdrawal>, b: seq<Withdrawal>)
    ensures Drawn(a + b) == Drawn(a) + Drawn(b)
    ensures forall t: nat {:trigger DrawnFrom(a + b, t)} :: DrawnFrom(a + b, t) == DrawnFrom(a, t) + DrawnFrom(b, t)
  {
    if a != [] {
      assert (a + b)[1..] == a[1..] + b;
      DrawnAppend(a[1..], b);
    } else {
      assert a + b == b;
    }
  }

  /**
   * Bookkeeping: every recorded withdrawal names a visited tube and a
   * non-zero volume, and the tubes appear in strictly increasing order, so
   * each tube is recorded at most once.
   */
  lemma {:induction false} DepleteRecords(avail: seq<real>, i: nat, left: real, d: Depletion)
    requires i <= |avail| && d == DepleteFrom(avail, i, left)
    ensures forall k :: 0 <= k < |d.withdrawals| ==>
      i <= d.withdrawals[k].tube < d.visited && d.withdrawals[k].vol != 0.0
    ensures forall k, k' :: 0 <= k < k' < |d.withdrawals| ==> d.withdrawals[k].tube < d.withdrawals[k'].tube
    decreases |avail| - i
  {
    if i < |avail| {
      var take := Take(avail[i], left);
      var avail' := avail[i := avail[i] - take];
      var recorded := if take != 0.0 then [Withdrawal(i, take)] else [];
      if left - take != 0.0 {
        var d' := DepleteFrom(avail', i + 1, left - take);
        assert d.withdrawals == recorded + d'.withdrawals && d.visited == d'.visited;
        DepleteRecords(avail', i + 1, left - take, d');
        if take != 0.0 {
          assert forall k :: 1 <= k < |d.withdrawals| ==> d.withdrawals[k] == d'.withdrawals[k - 1];
        }
      } else {
        assert d.withdrawals == recorded && d.visited == i + 1;
      }
    }
  }

  /** Every tube's volume falls by exactly what the withdrawals take from it. */
  lemma {:induction false} DepleteLowersByDrawn(avail: seq<real>, i: nat, left: real, d: Depletion)
    requires i <= |avail| && d == DepleteFrom(avail, i, left)
    ensures forall j :: 0 <= j < |avail| ==> d.after[j] == avail[j] - DrawnFrom(d.withdrawals, j)
    decreases |avail| - i
  {
    if i < |avail| {
      var take := Take(avail[i], left);
      var avail' := avail[i := avail[i] - take];
      var recorded := if take != 0.0 then [Withdrawal(i, take)] else [];
      forall j | 0 <= j < |avail|
        ensures DrawnFrom(recorded, j) == if j == i then take else 0.0
      {
        if take != 0.0 {
          assert recorded[1..] == [];
        }
      }
      if left - take != 0.0 {
        var d' := DepleteFrom(avail', i + 1, left - take);
        assert d.after == d'.after && d.withdrawals == recorded + d'.withdrawals;
        DepleteLowersByDrawn(avail', i + 1, left - take, d');
        DrawnAppend(recorded, d'.withdrawals);
      } else {
        assert d.after == avail' && d.withdrawals == recorded;
      }
    }
  }

  /**
   * First fit: every visited tube except the last one is drained to zero,
   * and when the request is not met every tube from `i` on is drained.
   */
  lemma {:induction false} DepleteDrains(avail: seq<real>, i: nat, left: real, d: Depletion)
    requires i <= |avail| && d == DepleteFrom(avail, i, left)
    ensures forall j :: i <= j < d.visited - 1 ==> d.after[j] == 0.0
    ensures !d.met ==> forall j :: i <= j < |avail| ==> d.after[j] == 0.0
    decreases |avail| - i
  {
    if i < |avail| {
      var take := Take(avail[i], left);
      var avail' := avail[i := avail[i] - take];
      if left - take != 0.0 {
        DepleteDrains(avail', i + 1, left - take, DepleteFrom(avail', i + 1, left - take));
        assert take == avail[i];
      }
    }
  }

  /**
   * Volumes stay non-negative whatever is requested; a non-negative request
   * only ever lowers a tube and records strictly positive draws.
   */
  lemma {:induction false} DepleteKeepsNonnegative(avail: seq<real>, i: nat, left: real, d: Depletion)
    requires i <= |avail| && Nonnegative(avail) && d == DepleteFrom(avail, i, left)
    ensures Nonnegative(d.after)
    ensures left >= 0.0 ==> forall j :: 0 <= j < |avail| ==> d.after[j] <= avail[j]
    ensures left >= 0.0 ==> forall k :: 0 <= k < |d.withdrawals| ==> d.withdrawals[k].vol > 0.0
    decreases |avail| - i
  {
    if i < |avail| {
      var take := Take(avail[i], left);
      var avail' := avail[i := avail[i] - take];
      var recorded := if take != 0.0 then [Withdrawal(i, take)] else [];
      assert avail[i] - take >= 0.0;
      assert Nonnegative(avail');
      if left - take != 0.0 {
        var d' := DepleteFrom(avail', i + 1, left - take);
        assert d.after == d'.after && d.withdrawals == recorded + d'.withdrawals;
        DepleteKeepsNonnegative(avail', i + 1, left - take, d');
        if left >= 0.0 {
          assert left - take > 0.0;
          assert forall j :: 0 <= j < |avail| ==> avail'[j] <= avail[j];
        }
      } else {
        assert d.after == avail' && d.withdrawals == recorded;
      }
    }
  }

  /**
   * The request is met exactly when some tube remains to be visited and the
   * tubes from `i` on hold at least the volume still wanted; in particular
   * an empty list fails every request, and an exact-total request succeeds.
   */
  lemma {:induction false} DepleteMetIff(avail: seq<real>, i: nat, left: real)
    requires i <= |avail| && Nonnegative(avail)
    ensures DepleteFrom(avail, i, left).met <==> i < |avail| && Sum(avail[i..]) >= left
    decreases |avail| - i
  {
    if i < |avail| {
      var take := Take(avail[i], left);
      var avail' := avail[i := avail[i] - take];
      assert avail[i..][1..] == avail[i + 1..];
      assert avail'[i + 1..] == avail[i + 1..];
      SumNonnegative(avail[i + 1..]);
      if left - take != 0.0 {
        DepleteMetIff(avail', i + 1, left - take);
        if i + 1 == |avail| {
          assert avail[i + 1..] == [];
        }
      }
    }
  }

  /**
   * What a caller that planned its volumes relies on: a non-empty pool of
   * non-negative volumes that holds at least the request meets it, and its
   * total falls by exactly the request.
   */
  lemma DepleteSucceeds(avail: seq<real>, volume: real)
    requires Nonnegative(avail) && |avail| > 0 && Sum(avail) >= volume
    ensures var d := Deplete(avail, volume);
      d.met && Sum(d.after) == Sum(avail) - volume && Nonnegative(d.after)
  {
    assert avail[0..] == avail;
    DepleteMetIff(avail, 0, volume);
    DepleteConserves(avail, 0, volume);
    DepleteDrawsRequest(avail, 0, volume);
    DepleteKeepsNonnegative(avail, 0, volume, Deplete(avail, volume));
  }

  /** A failed request leaves every tube empty and the pool held less than was asked. */
  lemma DepleteFails(avail: seq<real>, volume: real)
    requires Nonnegative(avail)
    ensures var d := Deplete(avail, volume);
      !d.met <==> |avail| == 0 || Sum(avail) < volume
    ensures var d := Deplete(avail, volume);
      !d.met ==> forall j :: 0 <= j < |avail| ==> d.after[j] == 0.0
  {
    assert avail[0..] == avail;
    DepleteMetIff(avail, 0, volume);
    DepleteDrains(avail, 0, volume, Deplete(avail, volume));
  }

  /** The worked example: tubes holding 50 and 30 asked for 70 give 50 then 20 and keep 0 and 10. */
  lemma DepleteExample()
    ensures Deplete([50.0, 30.0], 70.0) ==
      Depletion([0.0, 10.0], [Withdrawal(0, 50.0), Withdrawal(1, 20.0)], 2, true)
  {
  }
}
