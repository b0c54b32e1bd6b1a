/** The latency sampler, `Main.run`: for every pass it rewrites the
    mutation target with a fresh tag, waits for the build tool, and takes
    the marker file's modification time minus the mutation's as the
    latency. Waits, the watcher and the clock are replaced by a finite
    sequence of samples, one per pass, that says what the file system
    reported. */
module Sampler {
  import opened Wrappers
  import opened JavaInt
  import opened Sources

  /** What one pass of the loop observes: the UUID written into the
      mutation target, the modification time of that file read back after
      the write, and the modification time of the marker file `watch.out`
      read after the wait (`None` where the time could not be read). */
  datatype Sample = Sample(tag: string, touch: Option<Long>, marker: Option<Long>)

  /** `elapsed`: the marker's time minus the mutation's, as a `long`. */
  function Elapsed(s: Sample): (r: Long)
    ensures (s.touch.Some? && s.marker.Some? && MinLong <= s.marker.value - s.touch.value <= MaxLong)
              ==> r == s.marker.value - s.touch.value
    ensures s.marker.None? && OrZero(s.touch) >= 0 ==> r <= 0
  {
    SubLong(OrZero(s.marker), OrZero(s.touch))
  }

  /** The latency of every pass, in order. */
  function Latencies(samples: seq<Sample>): seq<Long>
  {
    seq(|samples|, k requires 0 <= k < |samples| => Elapsed(samples[k]))
  }

  /** The positive latencies among `latencies`, in order; the passes with
      the others are retried. */
  function Positives(latencies: seq<Long>): seq<Long>
    decreases |latencies|
  {
    if latencies == [] then []
    else
      var e := latencies[|latencies| - 1];
      Positives(latencies[..|latencies| - 1]) + (if e > 0 then [e] else [])
  }

  function Sum(xs: seq<int>): int
    decreases |xs|
  {
    if xs == [] then 0 else Sum(xs[..|xs| - 1]) + xs[|xs| - 1]
  }

  /** The first value of the loop counter, `-warmupIterations` as an `int`
      (which is `Integer.MIN_VALUE` again for `Integer.MIN_VALUE`). */
  function Start(warmupIterations: Int32): Int32
  {
    NegInt(warmupIterations)
  }

  /** How many positive latencies the loop needs before it stops. */
  function Needed(iterations: Int32, warmupIterations: Int32): nat
  {
    if Start(warmupIterations) < iterations then iterations - Start(warmupIterations) else 0
  }

  /** How many of the first positive latencies come with a negative counter
      and are left out of the total. */
  function Skip(start: int, positives: nat): nat
  {
    if start >= 0 then 0 else if - start < positives then - start else positives
  }

  /** The latencies summed into `totalElapsed`: a positive latency counts
      when the loop counter, the start value plus the number of positives
      before it, is not negative. */
  function Counted(latencies: seq<Long>, warmupIterations: Int32): seq<Long>
    decreases |latencies|
  {
    if latencies == [] then []
    else
      var before := latencies[..|latencies| - 1];
      var e := latencies[|latencies| - 1];
      Counted(before, warmupIterations) +
        (if e > 0 && Start(warmupIterations) + |Positives(before)| >= 0 then [e] else [])
  }

  /** `totalElapsed` after the given passes: every counted latency added
      in `long` arithmetic. */
  function Total(latencies: seq<Long>, warmupIterations: Int32): Long
    decreases |latencies|
  {
    if latencies == [] then 0
    else
      var before := latencies[..|latencies| - 1];
      var e := latencies[|latencies| - 1];
      var t := Total(before, warmupIterations);
      if e > 0 && Start(warmupIterations) + |Positives(before)| >= 0 then AddLong(t, e) else t
  }

  datatype RunError =
    | OutOfSamples     // the source retries forever; here the samples ran out
    | DivisionByZero   // `iterations == 0`: the `ArithmeticException` of the final division

  datatype Report = Report(totalElapsed: Long, average: Long)

  /** `totalElapsed / iterations` in `long` arithmetic. */
  function Average(total: Long, iterations: Int32): (r: Result<Long, RunError>)
    ensures r.Failure? <==> iterations == 0
    ensures r.Failure? ==> r.error == DivisionByZero
  {
    if iterations == 0 then Failure(DivisionByZero) else Success(DivLong(total, iterations))
  }

  /** What `run` reports after the passes with these latencies. */
  function Outcome(latencies: seq<Long>, iterations: Int32, warmupIterations: Int32): Result<Report, RunError>
  {
    var total := Total(latencies, warmupIterations);
    match Average(total, iterations)
    case Success(a) => Success(Report(total, a))
    case Failure(e) => Failure(e)
  }

  /** The measurement loop of `run`. `used` is how many samples it
      consumed, `written` the files after its rewrites of the mutation
      target. */
  method Run(project: Project, files: Files, samples: seq<Sample>, iterations: Int32, warmupIterations: Int32)
    returns (used: nat, written: Files, outcome: Result<Report, RunError>)
    ensures used <= |samples|
    ensures forall u :: 0 <= u < used ==> |Positives(Latencies(samples)[..u])| < Needed(iterations, warmupIterations)
    ensures outcome == Failure(OutOfSamples) <==> |Positives(Latencies(samples))| < Needed(iterations, warmupIterations)
    ensures outcome == Failure(OutOfSamples) ==> used == |samples|
    ensures |Positives(Latencies(samples))| >= Needed(iterations, warmupIterations) ==>
              |Positives(Latencies(samples)[..used])| == Needed(iterations, warmupIterations) &&
              outcome == Outcome(Latencies(samples)[..used], iterations, warmupIterations)
    ensures written == if used == 0 then files
                       else files[project.akkaMainPath := AkkaMainContent(project.akkaMainContent, samples[used - 1].tag)]
  {
    ghost var latencies := Latencies(samples);
    ghost var start := Start(warmupIterations);
    ghost var needed := Needed(iterations, warmupIterations);
    var totalElapsed: Long := 0;
    written := files;
    used := 0;
    var i: Int32 := NegInt(warmupIterations);
    while i < iterations
      invariant used <= |samples|
      invariant i == start + |Positives(latencies[..used])|
      invariant i <= iterations || used == 0
      invariant used > 0 ==> |Positives(latencies[..used - 1])| < needed
      invariant totalElapsed == Total(latencies[..used], warmupIterations)
      invariant written == if used == 0 then files
                           else files[project.akkaMainPath := AkkaMainContent(project.akkaMainContent, samples[used - 1].tag)]
      decreases |samples| - used
    {
      if used == |samples| {
        assert latencies[..used] == latencies;
        Minimal(latencies, used, needed);
        return used, written, Failure(OutOfSamples);
      }
      var sample := samples[used];
      var update := UpdateAkkaMain(written, project, sample.tag, sample.touch);
      assert update.0 == files[project.akkaMainPath := AkkaMainContent(project.akkaMainContent, sample.tag)] by {
        if used > 0 {
          UpdatesReplaceTag(files, project, samples[used - 1].tag, sample.tag, None, sample.touch);
        }
      }
      written := update.0;
      var touchLastModified := update.1;
      var watchFileLastModified := OrZero(sample.marker);
      var elapsed := SubLong(watchFileLastModified, touchLastModified);
      Pass(latencies, used, warmupIterations, i, totalElapsed, elapsed);
      used := used + 1;
      if elapsed > 0 {
        if i >= 0 {
          totalElapsed := AddLong(totalElapsed, elapsed);
        }
      } else {
        DecrementIncrement(i);
        i := AddInt(i, -1);
      }
      i := AddInt(i, 1);
    }
    Finished(latencies, used, iterations, warmupIterations, i);
    Minimal(latencies, used, needed);
    outcome := match Average(totalElapsed, iterations)
      case Success(a) => Success(Report(totalElapsed, a))
      case Failure(e) => Failure(e);
    assert outcome == Outcome(latencies[..used], iterations, warmupIterations);
  }

  /** Positives only accumulate, so if the passes before the last one had
      too few, every shorter prefix had too few as well. */
  lemma Minimal(latencies: seq<Long>, used: nat, needed: nat)
    requires used <= |latencies|
    requires used > 0 ==> |Positives(latencies[..used - 1])| < needed
    ensures forall u :: 0 <= u < used ==> |Positives(latencies[..u])| < needed
  {
    forall u | 0 <= u < used
      ensures |Positives(latencies[..u])| < needed
    {
      var before := latencies[..used - 1];
      assert before[..u] == latencies[..u];
      PositivesPrefix(before, u);
    }
  }

  /** When the counter reaches `iterations` the passes so far hold exactly
      the positives needed, and all the passes at least as many. */
  lemma Finished(latencies: seq<Long>, used: nat, iterations: Int32, warmupIterations: Int32, i: int)
    requires used <= |latencies|
    requires i == Start(warmupIterations) + |Positives(latencies[..used])|
    requires i >= iterations
    requires i <= iterations || used == 0
    ensures |Positives(latencies[..used])| == Needed(iterations, warmupIterations)
    ensures |Positives(latencies)| >= Needed(iterations, warmupIterations)
  {
    PositivesPrefix(latencies, used);
  }

  /** One pass of the loop with latency `elapsed`: a positive latency adds
      one to the positives and, with a counter that is not negative, is
      added to the total; any other latency changes neither. */
  lemma Pass(latencies: seq<Long>, used: nat, warmupIterations: Int32, i: int, total: Long, elapsed: Long)
    requires used < |latencies|
    requires elapsed == latencies[used]
    requires i == Start(warmupIterations) + |Positives(latencies[..used])|
    requires total == Total(latencies[..used], warmupIterations)
    ensures |Positives(latencies[..used + 1])| == |Positives(latencies[..used])| + (if elapsed > 0 then 1 else 0)
    ensures Total(latencies[..used + 1], warmupIterations) == if elapsed > 0 && i >= 0 then AddLong(total, elapsed) else total
  {
    assert latencies[..used + 1][..used] == latencies[..used];
  }

  /** The total is the sum of the counted latencies, wrapped to a `long`
      once at the end. */
  lemma {:induction false} TotalIsWrappedSum(latencies: seq<Long>, warmupIterations: Int32)
    ensures Total(latencies, warmupIterations) == Wrap64(Sum(Counted(latencies, warmupIterations)))
    decreases |latencies|
  {
    if latencies != [] {
      var before := latencies[..|latencies| - 1];
      var e := latencies[|latencies| - 1];
      TotalIsWrappedSum(before, warmupIterations);
      var c := Counted(before, warmupIterations);
      var t := Total(before, warmupIterations);
      if e > 0 && Start(warmupIterations) + |Positives(before)| >= 0 {
        assert Counted(latencies, warmupIterations) == c + [e];
        assert Total(latencies, warmupIterations) == AddLong(t, e);
        SumStep(c, e);
        AddLongWraps(t, e);
        WrapAdd64(Sum(c), e);
      } else {
        assert Counted(latencies, warmupIterations) == c;
        assert Total(latencies, warmupIterations) == t;
      }
    }
  }

  lemma SumStep(xs: seq<int>, x: int)
    ensures Sum(xs + [x]) == Sum(xs) + x
  {
    assert (xs + [x])[..|xs|] == xs;
  }

  lemma {:induction false} PositivesPrefix(latencies: seq<Long>, n: nat)
    requires n <= |latencies|
    ensures |Positives(latencies[..n])| <= |Positives(latencies)|
    decreases |latencies|
  {
    if n < |latencies| {
      var init := latencies[..|latencies| - 1];
      assert init[..n] == latencies[..n];
      PositivesPrefix(init, n);
    } else {
      assert latencies[..n] == latencies;
    }
  }

  // ----- Properties of the loop -----

  lemma {:induction false} PositivesArePositive(latencies: seq<Long>)
    ensures forall k :: 0 <= k < |Positives(latencies)| ==> Positives(latencies)[k] > 0
    decreases |latencies|
  {
    if latencies != [] {
      PositivesArePositive(latencies[..|latencies| - 1]);
    }
  }

  lemma {:induction false} SumAtLeastLength(xs: seq<int>)
    requires forall k :: 0 <= k < |xs| ==> xs[k] > 0
    ensures Sum(xs) >= |xs|
    decreases |xs|
  {
    if xs != [] {
      SumAtLeastLength(xs[..|xs| - 1]);
    }
  }

  /** The counted latencies are the positive ones after the first
      `Skip(start, ...)`: those that came while the counter was negative. */
  lemma {:induction false} CountedSuffix(latencies: seq<Long>, warmupIterations: Int32)
    ensures var ps := Positives(latencies);
      Counted(latencies, warmupIterations) == ps[Skip(Start(warmupIterations), |ps|)..]
    decreases |latencies|
  {
    if latencies != [] {
      var before := latencies[..|latencies| - 1];
      CountedSuffix(before, warmupIterations);
      var e := latencies[|latencies| - 1];
      var pb := Positives(before);
      var st := Start(warmupIterations);
      if e > 0 {
        var ps := pb + [e];
        assert Positives(latencies) == ps;
        if st + |pb| >= 0 {
          var k := Skip(st, |pb|);
          assert Skip(st, |ps|) == k;
          assert ps[k..] == pb[k..] + [e];
        } else {
          assert Skip(st, |ps|) == |ps|;
        }
      }
    }
  }

  /** With non-negative counts the loop needs `warmupIterations +
      iterations` positive latencies and counts exactly the last
      `iterations` of them. */
  lemma CountedLength(latencies: seq<Long>, iterations: Int32, warmupIterations: Int32)
    requires 0 <= iterations && 0 <= warmupIterations
    requires |Positives(latencies)| == Needed(iterations, warmupIterations)
    ensures Needed(iterations, warmupIterations) == warmupIterations + iterations
    ensures |Counted(latencies, warmupIterations)| == iterations
    ensures Counted(latencies, warmupIterations) == Positives(latencies)[warmupIterations..]
  {
    CountedSuffix(latencies, warmupIterations);
  }

  /** Every counted latency is positive, so the total of a completed run is
      at least `iterations` as long as the sum fits in a `long`. */
  lemma TotalAtLeastIterations(latencies: seq<Long>, iterations: Int32, warmupIterations: Int32)
    requires 0 <= iterations && 0 <= warmupIterations
    requires |Positives(latencies)| == Needed(iterations, warmupIterations)
    requires Sum(Counted(latencies, warmupIterations)) <= MaxLong
    ensures Total(latencies, warmupIterations) >= iterations
  {
    TotalIsWrappedSum(latencies, warmupIterations);
    CountedLength(latencies, iterations, warmupIterations);
    PositivesArePositive(latencies);
    var c := Counted(latencies, warmupIterations);
    assert forall k :: 0 <= k < |c| ==> c[k] == Positives(latencies)[warmupIterations + k];
    SumAtLeastLength(c);
  }

  /** The average of a completed run with at least one iteration is at
      least one millisecond, and is the truncated quotient. */
  lemma AverageAtLeastOne(total: Long, iterations: Int32)
    requires 0 < iterations <= total
    ensures Average(total, iterations).Success?
    ensures Average(total, iterations).value >= 1
    ensures Average(total, iterations).value * iterations <= total < (Average(total, iterations).value + 1) * iterations
  {
    var q := JavaDiv(total, iterations);
    JavaDivBounds(total, iterations);
    JavaDivAtLeastOne(total, iterations);
    assert q <= q * iterations by {
      MultiplyAtLeast(q, iterations);
    }
    assert (q + 1) * iterations == q * iterations + iterations;
  }

  /** A completed run with at least one iteration, no negative warmup and no
      `long` overflow reports an average of at least one millisecond. */
  lemma CompletedRunAverage(latencies: seq<Long>, iterations: Int32, warmupIterations: Int32)
    requires 0 < iterations && 0 <= warmupIterations
    requires |Positives(latencies)| == Needed(iterations, warmupIterations)
    requires Sum(Counted(latencies, warmupIterations)) <= MaxLong
    ensures Outcome(latencies, iterations, warmupIterations).Success?
    ensures Outcome(latencies, iterations, warmupIterations).value.totalElapsed >= iterations
    ensures Outcome(latencies, iterations, warmupIterations).value.average >= 1
  {
    TotalAtLeastIterations(latencies, iterations, warmupIterations);
    AverageAtLeastOne(Total(latencies, warmupIterations), iterations);
  }

  /** A negative warmup count starts the counter above zero, so fewer than
      `iterations` passes are counted: with `-w -1` and one iteration the
      loop does not run at all and the total is 0. */
  lemma NegativeWarmupCountsLess()
    ensures Needed(1, -1) == 0
    ensures Outcome([], 1, -1) == Success(Report(0, 0))
  {
    assert Start(-1) == 1;
  }

  /** A marker file that cannot be read counts as time 0, so with a
      non-negative mutation time the pass is not positive and is retried:
      it adds nothing to the positives. */
  lemma MissingMarkerRetried(samples: seq<Sample>, tag: string, touch: Option<Long>)
    requires OrZero(touch) >= 0
    ensures Elapsed(Sample(tag, touch, None)) <= 0
    ensures Positives(Latencies(samples + [Sample(tag, touch, None)])) == Positives(Latencies(samples))
  {
    var ls := Latencies(samples + [Sample(tag, touch, None)]);
    assert ls[..|samples|] == Latencies(samples);
  }

  lemma {:induction false} NoPositives(latencies: seq<Long>)
    requires forall k :: 0 <= k < |latencies| ==> latencies[k] <= 0
    ensures Positives(latencies) == []
    decreases |latencies|
  {
    if latencies != [] {
      NoPositives(latencies[..|latencies| - 1]);
    }
  }

  /** A build tool that never writes the marker file gives no positive
      latency at all, so a run that needs one runs out of samples. */
  lemma NeverTouched(samples: seq<Sample>)
    requires forall k :: 0 <= k < |samples| ==> samples[k].marker == None && OrZero(samples[k].touch) >= 0
    ensures Positives(Latencies(samples)) == []
  {
    NoPositives(Latencies(samples));
  }

  /** A marker written 50 ms after the mutation is a latency of 50. */
  lemma FiftyMillisecondLatency(tag: string, t: Long)
    requires 0 <= t <= 1000000000000000
    ensures Latencies([Sample(tag, Some(t), Some(t + 50))]) == [50]
  {
    var s := Sample(tag, Some(t), Some(t + 50));
    assert Elapsed(s) == 50;
    assert Latencies([s])[0] == Elapsed(s);
  }

  /** One iteration, no warmup, and a build tool that writes the marker
      50 ms after the mutation: the total and the average are 50. */
  lemma FiftyMilliseconds(tag: string, t: Long)
    requires 0 <= t <= 1000000000000000
    ensures Latencies([Sample(tag, Some(t), Some(t + 50))]) == [50]
    ensures Needed(1, 0) == 1
    ensures Outcome([50], 1, 0) == Success(Report(50, 50))
  {
    FiftyMillisecondLatency(tag, t);
    assert [50][..0] == [];
    assert Positives([50]) == [50];
    assert Counted([50], 0) == [50];
    assert Total([50], 0) == 50;
  }
}
