// The same non-interference, stated on runs: leaving out every step of every other call
// gives a run that still keeps the contract, and the call cannot tell the difference.
module SoleRun {
  import opened Machine
  import opened Solo

  /** An own step, as a step of a run in which the call is the only one. */
  function AsStep(id: int, own: OwnStep): Step {
    match own
    case Got(status, payload) => Library(Event(id, status, payload))
    case Took => Take(0)
    case Nexted => Next(0)
  }

  function RunOf(id: int, family: Family, own: seq<OwnStep>): seq<Step> {
    if own == [] then [Issue(id, family)]
    else RunOf(id, family, own[..|own| - 1]) + [AsStep(id, own[|own| - 1])]
  }

  /** What the contract comes to for one call. */
  ghost predicate Fits(family: Family, before: seq<OwnStep>, own: OwnStep) {
    match own
    case Got(status, payload) => !Ended(family, before) && PayloadFits(family, status, payload)
    case Took => family != Search && Ended(family, before)
    case Nexted => family == Search
  }

  ghost predicate AllFit(family: Family, own: seq<OwnStep>) {
    forall k :: 0 <= k < |own| ==> Fits(family, own[..k], own[k])
  }

  lemma AllFitExtend(family: Family, own: seq<OwnStep>, last: OwnStep)
    requires AllFit(family, own) && Fits(family, own, last)
    ensures AllFit(family, own + [last])
  {
    var all := own + [last];
    forall k | 0 <= k < |all|
      ensures Fits(family, all[..k], all[k])
    {
      if k < |own| {
        assert all[..k] == own[..k] && Fits(family, own[..k], own[k]);
      } else {
        assert all[..k] == own;
      }
    }
  }

  lemma AllFitStep(s: Sys, calls: seq<(int, Family)>, own: seq<OwnStep>, step: Step, h: nat)
    requires Inv(s) && Enabled(s, step) && Matches(s, calls) && h < |s.resps|
    requires s.resps[h].finished <==> Ended(s.resps[h].family, own)
    requires AllFit(s.resps[h].family, own)
    ensures AllFit(s.resps[h].family, OwnAfter(calls, own, step, h))
  {
    var family := s.resps[h].family;
    match step
    case Library(Event(id, status, payload)) =>
      if calls[h].0 == id && !Ended(family, own) {
        assert s.ops[id] == h;
        AllFitExtend(family, own, Got(status, payload));
      }
    case Take(k) =>
      if k == h {
        AllFitExtend(family, own, Took);
      }
    case Next(k) =>
      if k == h {
        AllFitExtend(family, own, Nexted);
      }
    case _ =>
  }

  lemma {:induction false} OwnStepsFit(t: seq<Step>, h: nat)
    requires Legal(t) && h < |Issues(t)|
    ensures AllFit(Issues(t)[h].1, Own(t, h))
  {
    var before, step := t[..|t| - 1], t[|t| - 1];
    LastStep(t);
    Reachable(before);
    IssuesMatch(before);
    if h == |Issues(before)| {
      NothingBeforeIssue(before, h);
    } else {
      OwnStepsFit(before, h);
      NonInterference(before, h);
      AloneKeepsFamily(Issues(before)[h].1, Own(before, h));
      AllFitStep(Run(before), Issues(before), Own(before, h), step, h);
    }
  }

  lemma SingleStep(s: Sys, id: int, family: Family, own: seq<OwnStep>, last: OwnStep)
    requires Inv(s) && Matches(s, [(id, family)]) && Fits(family, own, last)
    requires s.resps[0].finished <==> Ended(family, own)
    ensures Enabled(s, AsStep(id, last))
    ensures OwnAfter([(id, family)], own, AsStep(id, last), 0) == own + [last]
    ensures IssuesAfter([(id, family)], AsStep(id, last)) == [(id, family)]
  {
    assert [(id, family)][0] == (s.resps[0].reqid, s.resps[0].family);
  }

  ghost predicate IsRunOf(t: seq<Step>, id: int, family: Family, own: seq<OwnStep>) {
    Legal(t) && Issues(t) == [(id, family)] && Own(t, 0) == own
  }

  lemma FirstStep(id: int, family: Family)
    requires id >= 0
    ensures IsRunOf([Issue(id, family)], id, family, [])
  {
    var t := [Issue(id, family)];
    LegalExtend([], Issue(id, family));
    assert [] + [Issue(id, family)] == t;
    assert t[..0] == [];
  }

  lemma NextStep(t: seq<Step>, id: int, family: Family, own: seq<OwnStep>, last: OwnStep)
    requires IsRunOf(t, id, family, own) && Fits(family, own, last)
    ensures IsRunOf(t + [AsStep(id, last)], id, family, own + [last])
  {
    IssuesMatch(t);
    Reachable(t);
    NonInterference(t, 0);
    AloneKeepsFamily(family, own);
    SingleStep(Run(t), id, family, own, last);
    LegalExtend(t, AsStep(id, last));
    var t' := t + [AsStep(id, last)];
    assert t'[..|t'| - 1] == t;
  }

  /** The run of a single call keeps the contract, and its own steps are the given
      ones. */
  lemma {:induction false} SingleCall(id: int, family: Family, own: seq<OwnStep>)
    requires id >= 0 && AllFit(family, own)
    ensures IsRunOf(RunOf(id, family, own), id, family, own)
  {
    if own == [] {
      FirstStep(id, family);
    } else {
      var n := |own| - 1;
      AllFitPrefix(family, own);
      SingleCall(id, family, own[..n]);
      Grows(RunOf(id, family, own[..n]), id, family, own);
    }
  }

  lemma AllFitPrefix(family: Family, own: seq<OwnStep>)
    requires AllFit(family, own) && own != []
    ensures AllFit(family, own[..|own| - 1]) && Fits(family, own[..|own| - 1], own[|own| - 1])
  {
    var n := |own| - 1;
    var init := own[..n];
    forall k | 0 <= k < n
      ensures Fits(family, init[..k], init[k])
    {
      assert init[..k] == own[..k] && Fits(family, own[..k], own[k]);
    }
    assert Fits(family, own[..n], own[n]);
  }

  lemma Grows(t: seq<Step>, id: int, family: Family, own: seq<OwnStep>)
    requires own != [] && IsRunOf(t, id, family, own[..|own| - 1])
    requires Fits(family, own[..|own| - 1], own[|own| - 1])
    ensures IsRunOf(t + [AsStep(id, own[|own| - 1])], id, family, own)
  {
    var n := |own| - 1;
    NextStep(t, id, family, own[..n], own[n]);
    assert own == own[..n] + [own[n]];
  }

  /** For every run and every call in it, the call on its own makes a run that keeps
      the contract and leaves its response in the same state. */
  lemma {:induction false} AsIfAlone(t: seq<Step>, h: nat)
    requires Legal(t) && h < |Issues(t)|
    ensures var sole := RunOf(Issues(t)[h].0, Issues(t)[h].1, Own(t, h));
            && Legal(sole) && h < |Run(t).resps| && |Run(sole).resps| == 1
            && View(Run(sole), 0) == View(Run(t), h)
  {
    var (id, family) := Issues(t)[h];
    var own := Own(t, h);
    OwnStepsFit(t, h);
    IssuedIdsAreValid(t, h);
    SingleCall(id, family, own);
    IssuesMatch(RunOf(id, family, own));
    NonInterference(t, h);
    NonInterference(RunOf(id, family, own), 0);
  }

  lemma {:induction false} IssuedIdsAreValid(t: seq<Step>, h: nat)
    requires Legal(t) && h < |Issues(t)|
    ensures Issues(t)[h].0 >= 0
  {
    LastStep(t);
    if h < |Issues(t[..|t| - 1])| {
      IssuedIdsAreValid(t[..|t| - 1], h);
    }
  }
}
