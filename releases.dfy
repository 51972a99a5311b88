/**
 * The release-channel step source: an unbounded cursor that walks the
 * calendar backwards one day per step, starting with today, and gives the
 * three download URLs of the nightly artifact for the current day.
 */
module Releases {
  import opened Wrappers
  import Calendar
  import Decimal
  import Dist

  /** `format_step`: the `%Y-%m-%d` step of a day. */
  function FormatStep(d: Calendar.Date): (step: string)
    requires Calendar.Valid(d)
    ensures Calendar.Parse(step) == Some(d)
    ensures 0 <= d.year <= 9999 ==>
      |step| == 10 && step[4] == '-' && step[7] == '-' &&
      forall i :: 0 <= i < 10 && i != 4 && i != 7 ==> Decimal.IsDigit(step[i])
  {
    Calendar.ParseFormat(d);
    Calendar.FormatShape(d);
    Calendar.Format(d)
  }

  class ReleasesCommand {
    var currentStep: Option<Calendar.Date>

    // The date the first step produced, and how many steps have been taken.
    ghost var first: Calendar.Date
    ghost var steps: nat

    ghost predicate Valid()
      reads this
    {
      (currentStep.None? <==> steps == 0) &&
      (steps > 0 ==> Calendar.Valid(first) && currentStep == Some(Calendar.DaysBefore(first, steps - 1)))
    }

    /** `ReleasesCommand::new`: no day has been visited yet. */
    constructor ()
      ensures Valid() && currentStep == None && steps == 0
    {
      currentStep := None;
      steps := 0;
    }

    /**
     * Steps one day back.  Before the first step the cursor stands on
     * tomorrow, computed from `today` (the UTC date read from the clock at
     * that moment), so the first step yields today; later steps ignore
     * `today`.  The source never runs out of days.
     */
    method NextStep(today: Calendar.Date) returns (step: Option<string>)
      requires Valid() && Calendar.Valid(today)
      modifies this
      ensures Valid() && steps == old(steps) + 1
      ensures old(steps) == 0 ==> first == today && currentStep == Some(today)
      ensures old(steps) > 0 ==>
        first == old(first) && currentStep == Some(Calendar.PrevDay(old(currentStep).value))
      ensures Calendar.DayNumber(currentStep.value) == Calendar.DayNumber(first) - (steps - 1)
      ensures step == Some(FormatStep(currentStep.value))
      ensures FastlyUrl() == Some(Dist.Url(Dist.FASTLY_HOST, step.value))
      ensures CloudFrontUrl() == Some(Dist.Url(Dist.CLOUDFRONT_HOST, step.value))
      ensures S3Url() == Some(Dist.Url(Dist.S3_HOST, step.value))
    {
      var current := if currentStep.Some? then currentStep.value else Calendar.NextDay(today);
      var next := Calendar.PrevDay(current);
      currentStep := Some(next);
      if steps == 0 {
        first := today;
        Calendar.PrevDayUndoesNextDay(today);
      }
      steps := steps + 1;
      Calendar.DaysBeforeNumber(first, steps - 1);
      step := Some(FormatStep(next));
    }

    /** The URL of the current day's artifact on `host`, if a day has been visited. */
    function UrlOn(host: string): (url: Option<string>)
      reads this
      requires Valid()
      ensures url.Some? <==> currentStep.Some?
      ensures url.Some? ==> url.value == Dist.Url(host, FormatStep(currentStep.value))
    {
      match currentStep
      case None => None
      case Some(d) => Some(Dist.Url(host, FormatStep(d)))
    }

    function FastlyUrl(): (url: Option<string>)
      reads this
      requires Valid()
      ensures url.Some? <==> steps > 0
      ensures url.Some? ==> url.value == Dist.Url(Dist.FASTLY_HOST, FormatStep(currentStep.value))
    {
      UrlOn(Dist.FASTLY_HOST)
    }

    function CloudFrontUrl(): (url: Option<string>)
      reads this
      requires Valid()
      ensures url.Some? <==> steps > 0
      ensures url.Some? ==> url.value == Dist.Url(Dist.CLOUDFRONT_HOST, FormatStep(currentStep.value))
    {
      UrlOn(Dist.CLOUDFRONT_HOST)
    }

    function S3Url(): (url: Option<string>)
      reads this
      requires Valid()
      ensures url.Some? <==> steps > 0
      ensures url.Some? ==> url.value == Dist.Url(Dist.S3_HOST, FormatStep(currentStep.value))
    {
      UrlOn(Dist.S3_HOST)
    }
  }

  /**
   * A fresh source walks back from today: its first three steps are today,
   * yesterday and the day before, and each step's URLs point at that day.
   */
  method WalkBack(today: Calendar.Date) returns (walked: seq<string>)
    requires Calendar.Valid(today)
    ensures |walked| == 3
    ensures walked[0] == FormatStep(today)
    ensures walked[1] == FormatStep(Calendar.PrevDay(today))
    ensures walked[2] == FormatStep(Calendar.PrevDay(Calendar.PrevDay(today)))
  {
    var source := new ReleasesCommand();
    assert source.FastlyUrl() == None;
    var a := source.NextStep(today);
    assert source.currentStep == Some(today);
    var b := source.NextStep(today);
    assert source.currentStep == Some(Calendar.PrevDay(today));
    var c := source.NextStep(today);
    walked := [a.value, b.value, c.value];
  }
}
