/**
 The rendezvous body of a parallel call: responses of successful sub-calls are merged, merge failures are
 added to the failures already counted, and one error code is chosen for the parent.
 */
module ParallelMerge {
  import opened SeqSum
  import opened Errno

  // Outcome of merging one response. `Thrown` is an exception out of the default merger.
  datatype MergeResult = Merged | Fail | FailAll | Thrown

  // A finished sub-call: its error code (0 for success) and what merging its response would yield.
  datatype SubResult = SubResult(ec: int, merge: MergeResult) {
    predicate Failed() { ec != 0 }
    predicate HardMergeFailure() { ec == 0 && (merge.FailAll? || merge.Thrown?) }
  }

  function FailureWeight(s: SubResult): nat { if s.Failed() then 1 else 0 }

  function MergeFailureWeight(s: SubResult): nat { if !s.Failed() && s.merge.Fail? then 1 else 0 }

  predicate AnyHardMergeFailure(subs: seq<SubResult>)
  {
    exists i :: 0 <= i < |subs| && subs[i].HardMergeFailure()
  }

  // FAIL_ALL and exceptions count as a failure of every sub-call, FAIL as one more failure.
  predicate ParentFails(nfailed: nat, subs: seq<SubResult>, failLimit: nat)
  {
    || nfailed >= failLimit
    || AnyHardMergeFailure(subs)
    || nfailed + Sum(subs, MergeFailureWeight) >= failLimit
  }

  // The two weights count: sub-calls that failed, and successful ones whose response asked for one more failure.
  lemma WeightsCount(subs: seq<SubResult>)
    ensures Sum(subs, FailureWeight) == |set i | 0 <= i < |subs| && subs[i].ec != 0|
    ensures Sum(subs, MergeFailureWeight) == |set i | 0 <= i < |subs| && subs[i].ec == 0 && subs[i].merge == Fail|
  {
    SumToCounts(subs, FailureWeight, |subs|);
    SumToCounts(subs, MergeFailureWeight, |subs|);
    assert Ones(subs, FailureWeight, |subs|) == set i | 0 <= i < |subs| && subs[i].ec != 0;
    assert Ones(subs, MergeFailureWeight, |subs|) == set i | 0 <= i < |subs| && subs[i].ec == 0 && subs[i].merge == Fail;
  }

  // Errors that say something about a server: neither success nor a cancelled sub-call.
  function RealErrors(subs: seq<SubResult>): set<int>
  {
    set s | s in subs && s.ec != 0 && s.ec != ECANCELED :: s.ec
  }

  // The single common error if there is one; a set carries no order of sub-calls.
  ghost function UnifiedError(errors: set<int>): int
  {
    if errors == {} then ECANCELED
    else if e :| errors == {e} then e
    else ETOOMANYFAILS
  }

  ghost function FinalCode(nfailed: nat, subs: seq<SubResult>, failLimit: nat, parentEc: int): int
  {
    if !ParentFails(nfailed, subs, failLimit) then 0
    else if nfailed < failLimit && AnyHardMergeFailure(subs) then ERESPONSE
    else if parentEc != 0 then parentEc
    else UnifiedError(RealErrors(subs))
  }

  // What the parent ends with: nothing below the limit; ERESPONSE if merging a response failed for all; the error it
  // carried before, if any; else what the sub-calls have in common.
  ghost predicate EndsWith(code: int, nfailed: nat, subs: seq<SubResult>, failLimit: nat, parentEc: int)
  {
    var merged := nfailed < failLimit && AnyHardMergeFailure(subs);
    && (!ParentFails(nfailed, subs, failLimit) ==> code == 0)
    && (merged ==> code == ERESPONSE)
    && (ParentFails(nfailed, subs, failLimit) && !merged ==>
          && (parentEc != 0 ==> code == parentEc)
          && (parentEc == 0 ==> Unifies(code, subs)))
  }

  // The single real error of the sub-calls, ECANCELED without one and ETOOMANYFAILS with several.
  ghost predicate Unifies(code: int, subs: seq<SubResult>)
  {
    || (code == ECANCELED && forall s <- subs :: s.ec == 0 || s.ec == ECANCELED)
    || (&& code != 0 && code != ECANCELED && (exists s <- subs :: s.ec == code)
        && (forall s <- subs :: s.ec == 0 || s.ec == ECANCELED || s.ec == code))
    || (code == ETOOMANYFAILS && exists s <- subs, t <- subs :: s.ec != t.ec && {s.ec, t.ec} !! {0, ECANCELED})
  }

  lemma UnifiedErrorUnifies(subs: seq<SubResult>)
    ensures Unifies(UnifiedError(RealErrors(subs)), subs)
  {
    var errors := RealErrors(subs);
    assert forall s <- subs :: s.ec != 0 && s.ec != ECANCELED ==> s.ec in errors;
    if errors != {} {
      if e :| errors == {e} {
        assert e in errors;
      } else {
        var e :| e in errors;
        assert errors != {e};
        var f :| f in errors && f != e;
        var s :| s in subs && s.ec == e;
        var t :| t in subs && t.ec == f;
        assert s.ec != t.ec && {s.ec, t.ec} !! {0, ECANCELED};
      }
    }
  }

  lemma FinalCodeIsDue(nfailed: nat, subs: seq<SubResult>, failLimit: nat, parentEc: int)
    ensures EndsWith(FinalCode(nfailed, subs, failLimit, parentEc), nfailed, subs, failLimit, parentEc)
  {
    hide Unifies, UnifiedError, RealErrors;
    UnifiedErrorUnifies(subs);
  }

  lemma HardMergeFailureOfPrefix(subs: seq<SubResult>, i: nat)
    requires i < |subs|
    ensures AnyHardMergeFailure(subs[..i + 1]) <==> AnyHardMergeFailure(subs[..i]) || subs[i].HardMergeFailure()
  {
    assert subs[..i + 1] == subs[..i] + [subs[i]];
    if k :| 0 <= k < i && subs[..i][k].HardMergeFailure() {
      assert subs[..i + 1][k].HardMergeFailure();
    }
    if subs[i].HardMergeFailure() {
      assert subs[..i + 1][i].HardMergeFailure();
    }
  }

  method MergeResponses(currentFail: nat, subs: seq<SubResult>, failLimit: nat, parentEc: int)
    returns (nfailed: nat, ec: int)
    requires failLimit <= |subs|
    ensures (nfailed >= failLimit) == ParentFails(currentFail, subs, failLimit)
    ensures ec == if currentFail < failLimit && AnyHardMergeFailure(subs) then ERESPONSE else parentEc
  {
    nfailed := currentFail;
    ec := parentEc;
    if nfailed < failLimit {
      for i := 0 to |subs|
        invariant AnyHardMergeFailure(subs[..i]) ==> nfailed >= |subs| && ec == ERESPONSE
        invariant !AnyHardMergeFailure(subs[..i]) ==>
                    nfailed == currentFail + Sum(subs[..i], MergeFailureWeight) && ec == parentEc
      {
        HardMergeFailureOfPrefix(subs, i);
        SumToSame(subs[..i + 1], subs[..i], MergeFailureWeight, i);
        if !subs[i].Failed() {
          match subs[i].merge
          case Merged =>
          case Fail => nfailed := nfailed + 1;
          case FailAll => nfailed := |subs|; ec := ERESPONSE;
          case Thrown =>
            nfailed := |subs|;
            ec := ERESPONSE;
            break;
        }
      }
      assert subs[..|subs|] == subs;
    }
  }

  method UnifyErrorCodes(subs: seq<SubResult>) returns (unified: int)
    ensures unified == UnifiedError(RealErrors(subs))
  {
    unified := ECANCELED;
    for i := 0 to |subs|
      invariant if RealErrors(subs[..i]) == {} then unified == ECANCELED
                else unified != ECANCELED && RealErrors(subs[..i]) == {unified}
    {
      var ec := subs[i].ec;
      assert subs[..i + 1] == subs[..i] + [subs[i]];
      assert RealErrors(subs[..i + 1]) ==
             RealErrors(subs[..i]) + if ec != 0 && ec != ECANCELED then {ec} else {};
      if ec != 0 && ec != ECANCELED {
        if unified == ECANCELED {
          unified := ec;
        } else if unified != ec {
          assert {unified, ec} <= RealErrors(subs);
          unified := ETOOMANYFAILS;
          return;
        }
      }
    }
    assert subs[..|subs|] == subs;
  }

  // `currentFail` is what the fail counter holds at the rendezvous.
  method OnComplete(currentFail: nat, subs: seq<SubResult>, failLimit: nat, parentEc: int) returns (code: int)
    requires 1 <= failLimit <= |subs|
    ensures code == FinalCode(currentFail, subs, failLimit, parentEc)
    ensures EndsWith(code, currentFail, subs, failLimit, parentEc)
  {
    FinalCodeIsDue(currentFail, subs, failLimit, parentEc);
    hide EndsWith;
    var nfailed, ec := MergeResponses(currentFail, subs, failLimit, parentEc);
    code := ec;
    if nfailed >= failLimit {
      if code == 0 {
        code := UnifyErrorCodes(subs);
      }
    } else {
      code := 0;
    }
  }

  // The parent's code is 0 exactly when the limit is not reached, whatever error it already carried.
  lemma FailedIffLimitReached(nfailed: nat, subs: seq<SubResult>, failLimit: nat, parentEc: int)
    ensures FinalCode(nfailed, subs, failLimit, parentEc) != 0 <==> ParentFails(nfailed, subs, failLimit)
  {
    var errors := RealErrors(subs);
    assert 0 !in errors;
    if e :| errors == {e} {
      assert e in errors;
    }
  }

  lemma {:induction false} SumWithout(s: seq<SubResult>, k: nat, weight: SubResult -> nat, n: nat)
    requires k < n <= |s|
    ensures SumTo(s, weight, n) == SumTo(s[..k] + s[k + 1..], weight, n - 1) + weight(s[k])
  {
    if k == n - 1 {
      SumToSame(s, s[..k] + s[k + 1..], weight, k);
    } else {
      SumWithout(s, k, weight, n - 1);
    }
  }

  lemma MultisetWithout(s: seq<SubResult>, k: nat)
    requires k < |s|
    ensures multiset(s[..k] + s[k + 1..]) == multiset(s) - multiset{s[k]}
  {
    assert s == s[..k] + [s[k]] + s[k + 1..];
  }

  lemma {:induction false} SumOfMultiset(a: seq<SubResult>, b: seq<SubResult>, weight: SubResult -> nat)
    requires multiset(a) == multiset(b)
    ensures Sum(a, weight) == Sum(b, weight)
  {
    if a == [] {
      assert |multiset(b)| == 0;
    } else {
      var init, last := a[..|a| - 1], a[|a| - 1];
      assert a == init + [last];
      assert last in multiset(b);
      var k :| 0 <= k < |b| && b[k] == last;
      var rest := b[..k] + b[k + 1..];
      MultisetWithout(b, k);
      assert multiset(init) == multiset(a) - multiset{last};
      SumOfMultiset(init, rest, weight);
      SumWithout(b, k, weight, |b|);
      assert |a| == |multiset(a)| == |b|;
      SumWithout(a, |a| - 1, weight, |a|);
      assert a[..|a| - 1] + a[|a|..] == init;
    }
  }

  // Reordering the sub-calls changes nothing about the parent's final code.
  lemma OutcomeIgnoresSubCallOrder(a: seq<SubResult>, b: seq<SubResult>, nfailed: nat, failLimit: nat, parentEc: int)
    requires multiset(a) == multiset(b)
    ensures FinalCode(nfailed, a, failLimit, parentEc) == FinalCode(nfailed, b, failLimit, parentEc)
  {
    assert forall s :: s in a <==> s in b by {
      assert forall s :: s in a <==> s in multiset(a);
      assert forall s :: s in b <==> s in multiset(b);
    }
    assert AnyHardMergeFailure(a) == AnyHardMergeFailure(b) by {
      assert AnyHardMergeFailure(a) == exists s :: s in a && s.HardMergeFailure();
      assert AnyHardMergeFailure(b) == exists s :: s in b && s.HardMergeFailure();
    }
    assert RealErrors(a) == RealErrors(b);
    SumOfMultiset(a, b, MergeFailureWeight);
  }
}
