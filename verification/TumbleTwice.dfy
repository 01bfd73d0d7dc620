/** A generated schedule that cannot be re-planned (src/jmclient/schedule.py).

  A wallet of two mixdepths, all coins in the second, and a tumble through four: each
  mixdepth is visited twice.  The draws are fixed but for `last`, the knife of the last visit. */
module TumbleTwice {
  import opened Residues
  import F = ScheduleFractions
  import opened TumblePlan
  import opened TumbleSchedule
  import R = TumbleRun
  import opened W = ScheduleTweak

  function Plain(src: nat, amount: real): Entry {
    Entry(src, amount, 6, Internal, 0.0, NO_ROUNDING, 0)
  }

  const BALANCES: seq<nat> := [0, 1]
  const FOUR_VISITS := Options(4, 1, 1, 1)
  const EXTRA := Extra(0.0, 6, false, 0)

  function Knives(last: real, m: nat): seq<seq<real>> {
    if m == 0 then [[0.1]]
    else if m == 1 then [[0.7]]
    else if m == 2 then [[0.5, 0.2]]
    else if m == 3 && F.LEAST_LAST < last < 1.0 then [[last]]
    else []
  }

  function DrawsWith(last: real): Random {
    Random((m: nat) => if m == 2 then 3 else 2, (m: nat) => Knives(last, m),
           (i: nat) => EXTRA, (m: nat, i: nat) => EXTRA)
  }

  function FirstVisit(): Block {
    [Plain(0, 0.9), Plain(0, 0.0)]
  }

  function Between(): Block {
    [Plain(1, 0.3), Plain(1, 0.0)]
  }

  function SecondVisit(): Block {
    [Plain(0, 0.5), Plain(0, 0.3), Plain(0, 0.0)]
  }

  function LastVisit(last: real): Block {
    [Plain(1, 1.0 - last), Plain(1, 0.0)]
  }

  function Ending(): seq<Entry> {
    [Plain(1, 0.0).(dest := Addr("mine"))]
  }

  function TwoVisits(last: real): Plan {
    Plan([Plain(1, 0.0)], [1], 0, [FirstVisit(), Between(), SecondVisit(), LastVisit(last)])
  }

  function VisitedTwice(): seq<Entry> {
    [Plain(1, 0.0)] + FirstVisit() + Between() + SecondVisit() + Ending()
  }

  lemma OneKnife(k: real)
    requires F.LEAST_LAST < k < 1.0
    ensures F.Acceptable([k]) && F.SortedDown([k]) == [k]
    ensures F.CutAt([1.0 - k, k], [k]) && F.Fractions([1.0 - k, k])
  {
    var y := [1.0 - k, k];
    assert F.SumTo(y, 0) == 0.0;
    assert F.SumTo(y, 1) == 1.0 - k;
    assert F.SumTo(y, 2) == 1.0;
  }

  lemma TwoKnives()
    ensures F.Acceptable([0.5, 0.2]) && F.SortedDown([0.5, 0.2]) == [0.5, 0.2]
    ensures F.CutAt([0.5, 0.3, 0.2], [0.5, 0.2]) && F.Fractions([0.5, 0.3, 0.2])
  {
    var y := [0.5, 0.3, 0.2];
    assert F.SumTo(y, 0) == 0.0;
    assert F.SumTo(y, 1) == 0.5;
    assert F.SumTo(y, 2) == 0.8;
    assert F.SumTo(y, 3) == 1.0;
  }

  lemma DrawnBy(b: Block, y: seq<real>, knives: seq<real>)
    requires SpentAs(b, y) && F.Acceptable(knives) && F.CutAt(y, F.SortedDown(knives))
    ensures FromDraws(b, [knives])
  {
    assert [knives][0] == knives;
  }

  lemma BlocksDrawn(last: real)
    requires F.LEAST_LAST < last < 1.0
    ensures FromDraws(FirstVisit(), Knives(last, 0)) && FromDraws(Between(), Knives(last, 1))
    ensures FromDraws(SecondVisit(), Knives(last, 2)) && FromDraws(LastVisit(last), Knives(last, 3))
  {
    OneKnife(0.1);
    OneKnife(0.7);
    OneKnife(last);
    TwoKnives();
    hide F.Fractions, F.CutAt, F.Acceptable, F.SortedDown;
    assert SpentAs(FirstVisit(), [1.0 - 0.1, 0.1]);
    DrawnBy(FirstVisit(), [1.0 - 0.1, 0.1], [0.1]);
    DrawnBy(Between(), [1.0 - 0.7, 0.7], [0.7]);
    DrawnBy(SecondVisit(), [0.5, 0.3, 0.2], [0.5, 0.2]);
    DrawnBy(LastVisit(last), [1.0 - last, last], [last]);
  }

  lemma DrawsFitOptions(last: real)
    ensures RandomFits(FOUR_VISITS, DrawsWith(last)) && ValidOptions(FOUR_VISITS, |BALANCES|)
  {}

  lemma StageOnePlanned(last: real)
    ensures var p := TwoVisits(last);
      && R.Sweeps(p.stage1, p.ds) && R.Funded(p.ds, BALANCES) && HighestFirst(p.ds)
      && IsLowest(R.Flags(p.ds, 2), p.low) && StageOneDrawn(p.stage1, FOUR_VISITS, DrawsWith(last))
  {
    var p := TwoVisits(last);
    assert R.IsSweep(p.stage1[0], 1);
    assert p.ds[..0] == [];
    assert R.Flags([], 2) == map[];
    assert R.NextDepth(1, 2) == 0;
    assert R.Flags(p.ds, 2) == map[1 := false, 0 := true];
  }

  lemma DepthAlternates(low: nat, m: nat, depths: nat)
    requires low == 0 && depths == 2 && m < 4
    ensures Depth(low, m, depths) == if m == 0 || m == 2 then 0 else 1
  {
    if m >= 2 {
      assert Mod(low + m, depths) == Mod(m - 2, depths);
    }
  }

  /** A block of plain entries is one that the drafting gives. */
  lemma PlainPlanned(b: Block, m: nat, d: nat, last: real)
    requires forall i :: 0 <= i < |b| ==> b[i] == Plain(d, b[i].amount)
    requires Last(b).amount == 0.0
    ensures Drafted(b, d) && WithExtras(b, m, FOUR_VISITS, DrawsWith(last))
  {}

  lemma BlockPlanned(m: nat, last: real)
    requires m < 4
    ensures var b := TwoVisits(last).blocks[m];
      Drafted(b, Depth(0, m, 2)) && WithExtras(b, m, FOUR_VISITS, DrawsWith(last))
        && |b| == TxCount(FOUR_VISITS, DrawsWith(last), m)
  {
    DepthAlternates(0, m, 2);
    hide Depth, Drafted, WithExtras;
    if m == 0 {
      PlainPlanned(FirstVisit(), 0, 0, last);
    } else if m == 1 {
      PlainPlanned(Between(), 1, 1, last);
    } else if m == 2 {
      PlainPlanned(SecondVisit(), 2, 0, last);
    } else {
      PlainPlanned(LastVisit(last), 3, 1, last);
    }
  }

  /** Every such plan is one that the generator can make. */
  lemma TwoVisitsPlanned(last: real)
    requires F.LEAST_LAST < last < 1.0
    ensures PlanFits(TwoVisits(last), BALANCES, FOUR_VISITS, DrawsWith(last))
  {
    StageOnePlanned(last);
    BlocksDrawn(last);
    hide FromDraws, WithExtras, Drafted, Depth, TxCount, IsLowest, StageOneDrawn, HighestFirst;
    hide R.Flags, R.Sweeps, R.Funded;
    forall m: nat | m < 4
      ensures var b := TwoVisits(last).blocks[m];
        && Drafted(b, Depth(0, m, 2)) && WithExtras(b, m, FOUR_VISITS, DrawsWith(last))
        && |b| == TxCount(FOUR_VISITS, DrawsWith(last), m)
    {
      BlockPlanned(m, last);
    }
  }

  lemma FlattenThree()
    ensures Flatten([FirstVisit(), Between(), SecondVisit()]) == FirstVisit() + Between() + SecondVisit()
  {
    hide Flatten;
    FlattenOne(FirstVisit());
    FlattenSnoc([FirstVisit()], Between());
    FlattenSnoc([FirstVisit(), Between()], SecondVisit());
    assert [FirstVisit()] + [Between()] == [FirstVisit(), Between()];
    assert [FirstVisit(), Between()] + [SecondVisit()] == [FirstVisit(), Between(), SecondVisit()];
  }

  /** The generator makes the intended schedule of such a plan, unless the last visit draws the
      knife of the visit before it to the same mixdepth: then an entry to be removed equals an
      earlier one, which is removed in its place. */
  lemma TwoVisitsGenerated(last: real)
    requires F.LEAST_LAST < last < 1.0
    ensures FinalSchedule(TwoVisits(last), FOUR_VISITS, ["mine"]) == VisitedTwice()
    ensures Destined(TwoVisits(last), Externals(1, ["mine"]), 2, 1) == VisitedTwice() <==> last != 0.7
  {
    TwoVisitsEnd(last);
    MixedUpIff(last);
    TwoVisitsPlanned(last);
    DrawsFitOptions(last);
    hide PlanFits, RandomFits, Distinguishable, FinalSchedule, Destined, Externals;
    ScheduleOfPlanIff(TwoVisits(last), BALANCES, FOUR_VISITS, ["mine"], DrawsWith(last));
  }

  lemma BeforeLast(last: real)
    ensures var p := TwoVisits(last);
      p.stage1 + Flatten(p.blocks[..3]) == [Plain(1, 0.0)] + FirstVisit() + Between() + SecondVisit()
  {
    var p := TwoVisits(last);
    FlattenThree();
    hide Flatten;
    assert p.blocks[..3] == [FirstVisit(), Between(), SecondVisit()];
  }

  lemma TwoVisitsEnd(last: real)
    ensures FinalSchedule(TwoVisits(last), FOUR_VISITS, ["mine"]) == VisitedTwice()
  {
    var p := TwoVisits(last);
    BeforeLast(last);
    hide Flatten;
    var e := Externals(1, ["mine"]);
    assert e == [Addr("mine")];
    GivesFirst(p.stage1, p.blocks, e);
  }

  lemma MixedUpIff(last: real)
    requires last < 1.0
    ensures Distinguishable(TwoVisits(last)) <==> last != 0.7
  {
    var p := TwoVisits(last);
    BeforeLast(last);
    hide Flatten;
    var before, mid := p.stage1 + Flatten(p.blocks[..3]), p.blocks[3][..1];
    assert mid == [Plain(1, 1.0 - last)];
    assert before == [Plain(1, 0.0), Plain(0, 0.9), Plain(0, 0.0), Plain(1, 0.3), Plain(1, 0.0),
                      Plain(0, 0.5), Plain(0, 0.3), Plain(0, 0.0)];
    assert before[3] in before && mid[0] in mid;
    assert Plain(1, 1.0 - last) in before <==> last == 0.7;
  }

  // ---------- what re-planning does to it ----------

  /** The entries of one mixdepth among visits to it and to others. */
  lemma OfVisits(a: seq<Entry>, b: seq<Entry>, c: seq<Entry>, e: seq<Entry>, d: nat)
    requires AllFrom(a, d) && NoneFrom(b, d) && AllFrom(c, d) && NoneFrom(e, d)
    ensures Of(a + b + c + e, d) == a + c
  {
    hide Of, AllFrom, NoneFrom;
    OfConcat(a + b + c, e, d);
    ThreeParts(a, b, c, d);
    OfAll(a, d);
    OfNone(b, d);
    OfAll(c, d);
    OfNone(e, d);
    assert a + [] + c + [] == a + c;
  }

  lemma RestOfFirst()
    ensures Of(VisitedTwice()[1..], 0) == FirstVisit() + SecondVisit()
  {
    assert VisitedTwice()[1..] == FirstVisit() + Between() + SecondVisit() + Ending();
    OfVisits(FirstVisit(), Between(), SecondVisit(), Ending(), 0);
    hide Of;
  }

  lemma FirstToBeDone()
    ensures var s := VisitedTwice();
      && |s| == 9 && s[1] == Plain(0, 0.9) && s[3] == Plain(1, 0.3) && s[4] == Plain(1, 0.0)
      && Precise(s, 1, ["mine"]) && ToBeDone(s, 1) == 5 && Left(s, 1) == 1.0
  {
    var s := VisitedTwice();
    RestOfFirst();
    assert s[..1] == [Plain(1, 0.0)];
    OfNone(s[..1], 0);
    hide Of;
    assert Of(s[..1], 0) == [];
  }

  /** Re-planning the first visit to mixdepth 0 changes amounts planned for mixdepth 1. */
  lemma ReplanReachesAnotherMixdepth()
    ensures VisitedTwice()[1].src == 0 && VisitedTwice()[3] == Plain(1, 0.3)
    ensures exists y: seq<real>, s': seq<Entry> ::
      F.Drawable(y) && IsReplan(VisitedTwice(), 1, y, s') && !OthersUntouched(VisitedTwice(), 0, s')
  {
    var s := VisitedTwice();
    FirstToBeDone();
    hide ToBeDone, Left;
    assert s[3] == Plain(1, 0.3);
    assert !HarmlessReach(s, 1);
    hide HarmlessReach, IsReplan, OthersUntouched, F.Drawable;
    OthersUntouchedIff(s, 1);
  }

  /** With four acceptable knives, the code plans two amounts for mixdepth 1 anew: the third and
      the fourth fraction take the place of 0.3 and of the sweep. */
  method ReplanFirstVisit(knives: seq<real>, minimumMakers: int) returns (r: W.Result)
    requires |knives| == 4 && F.Draws(knives) && F.Acceptable(knives)
    ensures VisitedTwice()[3] == Plain(1, 0.3) && VisitedTwice()[4] == Plain(1, 0.0)
    ensures r.Tweaked? && |r.schedule| == |VisitedTwice()|
    ensures var cuts := F.SortedDown(knives);
      && r.schedule[3] == Plain(1, cuts[1] - cuts[2])
      && r.schedule[4] == Plain(1, cuts[2] - cuts[3])
  {
    var s := VisitedTwice();
    FirstToBeDone();
    hide VisitedTwice, ToBeDone, Left, Precise, FoundCount, FoundLeft, TumbleOk;
    PreciseFinds(s, 1, ["mine"]);
    assert s[1 := Redirected(s[1], ["mine"])] == s;
    var attempts := (n: nat) => if n == 5 then [knives] else [];
    hide F.Draws, F.Acceptable, F.CutAt, F.SortedDown, F.Fractions, F.Drawable, IsTweak;
    assert attempts(5)[0] == knives;
    r := TweakTumbleSchedule(s, 0, ["mine"], minimumMakers, attempts);
    ghost var y :| Replans(s, 1, y, r.schedule) && F.Drawn(y, attempts(5));
    F.FractionAt(y, F.SortedDown(knives), 2);
    F.FractionAt(y, F.SortedDown(knives), 3);
  }

  lemma BeforeSecond()
    ensures Of(VisitedTwice()[..6], 0) == FirstVisit() + [Plain(0, 0.5)]
  {
    hide Of;
    assert VisitedTwice()[..6] == [] + [Plain(1, 0.0)] + FirstVisit() + Between() + [Plain(0, 0.5)];
    OfVisits([], [Plain(1, 0.0)], FirstVisit(), Between(), 0);
    OfConcat([] + [Plain(1, 0.0)] + FirstVisit() + Between(), [Plain(0, 0.5)], 0);
    OfAll([Plain(0, 0.5)], 0);
  }

  lemma RestOfSecond()
    ensures Of(VisitedTwice()[6..], 0) == [Plain(0, 0.3), Plain(0, 0.0)]
  {
    hide Of;
    var rest := [Plain(0, 0.3), Plain(0, 0.0)];
    assert VisitedTwice()[6..] == rest + Ending();
    OfConcat(rest, Ending(), 0);
    OfAll(rest, 0);
    OfNone(Ending(), 0);
  }

  lemma SecondToBeDone()
    ensures var s := VisitedTwice();
      && |s| == 9 && s[6] == Plain(0, 0.3) && Precise(s, 6, ["mine"])
      && ToBeDone(s, 6) == 2 && Spent(Of(s[..6], 0)) == 1.4
  {
    BeforeSecond();
    RestOfSecond();
    SpentConcat([Plain(0, 0.9)], [Plain(0, 0.0)]);
    SpentConcat(FirstVisit(), [Plain(0, 0.5)]);
    SpentOne(Plain(0, 0.9));
    SpentOne(Plain(0, 0.0));
    SpentOne(Plain(0, 0.5));
    assert FirstVisit() == [Plain(0, 0.9)] + [Plain(0, 0.0)];
    hide Of, Spent;
  }

  /** Re-planning its second visit, after 140% have been spent, plans negative amounts. */
  lemma ReplanTurnsNegative()
    ensures VisitedTwice()[6] == Plain(0, 0.3)
    ensures exists y: seq<real>, s': seq<Entry> ::
      F.Drawable(y) && IsReplan(VisitedTwice(), 6, y, s') && !NoneNegative(s', 6, |y|)
  {
    SecondToBeDone();
    hide IsReplan, NoneNegative, Of, Spent, ToBeDone, F.Drawable;
    NeverNegativeIff(VisitedTwice(), 6);
  }

  /** Whatever acceptable knife is drawn, the code plans a negative amount. */
  method ReplanSecondVisit(knife: real, minimumMakers: int) returns (r: W.Result)
    requires F.LEAST_LAST < knife < 1.0
    ensures r.Tweaked? && |r.schedule| == |VisitedTwice()|
    ensures r.schedule[6] == Plain(0, -0.4 * (1.0 - knife)) && r.schedule[6].amount < 0.0
  {
    var s, knives := VisitedTwice(), [knife];
    SecondToBeDone();
    hide VisitedTwice, ToBeDone, Precise, Of, Spent, FoundCount, FoundLeft, TumbleOk;
    PreciseFinds(s, 6, ["mine"]);
    assert s[6 := Redirected(s[6], ["mine"])] == s;
    OneKnife(knife);
    assert F.Draws(knives);
    var attempts := (n: nat) => if n == 2 then [knives] else [];
    hide F.Draws, F.Acceptable, F.CutAt, F.SortedDown, F.Fractions, F.Drawable, IsTweak;
    assert attempts(2)[0] == knives;
    r := TweakTumbleSchedule(s, 5, ["mine"], minimumMakers, attempts);
    ghost var y :| Replans(s, 6, y, r.schedule) && F.Drawn(y, attempts(2));
    F.FractionAt(y, knives, 0);
  }
}
