/** The empty-bucket report of sg-demo/lambda_function.py: from one listing of the
    account's buckets, keep those created more than 30 days before the invocation
    time, probe each of them for a single object, and report, in listing order,
    the names of those whose probe succeeded and found nothing. */
module LambdaFunction {
  import opened Subsequence

  /** A bucket as listed by the storage provider; `created` is in epoch seconds. */
  datatype Bucket = Bucket(name: string, created: int)

  /** The outcome of one bounded object listing (at most one key) on a bucket:
      the response carried a `Contents` entry, it did not, or the call raised. */
  datatype Probe = HasContents | NoContents | Error

  /** The envelope the handler returns. */
  datatype Response = Response(statusCode: int, emptyBuckets: seq<string>)

  const SecondsPerDay: int := 24 * 60 * 60
  const AgeDays: int := 30
  const StatusOk: int := 200

  /** The instant exactly 30 days before `now`. */
  function Cutoff(now: int): (cutoff: int)
    ensures cutoff < now
    ensures now - cutoff == 2592000
  {
    now - AgeDays * SecondsPerDay
  }

  /** A bucket is old enough to be considered when it was created strictly before the cutoff. */
  predicate IsOld(b: Bucket, cutoff: int)
  {
    b.created < cutoff
  }

  /** The names of the listed buckets, in listing order. */
  function Names(bs: seq<Bucket>): (ns: seq<string>)
    ensures |ns| == |bs|
    ensures forall i :: 0 <= i < |bs| ==> ns[i] == bs[i].name
  {
    if bs == [] then [] else [bs[0].name] + Names(bs[1..])
  }

  /** What one listed bucket adds to the probe trace: its name when it is old. */
  function ProbeStep(b: Bucket, cutoff: int): seq<string>
  {
    if IsOld(b, cutoff) then [b.name] else []
  }

  /** What one listed bucket adds to the report: its name when it is old and its probe found nothing. */
  function Contribution(b: Bucket, cutoff: int, probe: string -> Probe): seq<string>
  {
    if IsOld(b, cutoff) && probe(b.name) == NoContents then [b.name] else []
  }

  /** The report, built in one pass over the listing. */
  function Filter(bs: seq<Bucket>, cutoff: int, probe: string -> Probe): seq<string>
  {
    if bs == [] then [] else Contribution(bs[0], cutoff, probe) + Filter(bs[1..], cutoff, probe)
  }

  /** The names probed, in the order the probes are issued. */
  function Probed(bs: seq<Bucket>, cutoff: int): seq<string>
  {
    if bs == [] then [] else ProbeStep(bs[0], cutoff) + Probed(bs[1..], cutoff)
  }

  /** The names among `ns` whose probe found nothing, in order. */
  function KeepEmpty(ns: seq<string>, probe: string -> Probe): seq<string>
  {
    if ns == [] then []
    else (if probe(ns[0]) == NoContents then [ns[0]] else []) + KeepEmpty(ns[1..], probe)
  }

  /** No two listed buckets share a name (the provider guarantees this within an account). */
  predicate UniqueNames(bs: seq<Bucket>)
  {
    forall i, j :: 0 <= i < j < |bs| ==> bs[i].name != bs[j].name
  }

  /** The handler: one pass over the listing, one probe per old bucket, a possibly
      raising probe skipped, and the names found empty wrapped with status 200.
      `probed` is the sequence of names handed to the probe, in order. */
  method LambdaHandler(buckets: seq<Bucket>, now: int, probe: string -> Probe)
    returns (response: Response, probed: seq<string>)
    ensures response.statusCode == 200
    ensures response.emptyBuckets == Filter(buckets, Cutoff(now), probe)
    ensures probed == Probed(buckets, Cutoff(now))
    ensures buckets == [] ==> response.emptyBuckets == [] && probed == []
  {
    var cutoff := Cutoff(now);
    var emptyBuckets: seq<string> := [];
    probed := [];
    for i := 0 to |buckets|
      invariant emptyBuckets == Filter(buckets[..i], cutoff, probe)
      invariant probed == Probed(buckets[..i], cutoff)
    {
      var bucket := buckets[i];
      assert buckets[..i + 1] == buckets[..i] + [bucket];
      FilterConcat(buckets[..i], [bucket], cutoff, probe);
      ProbedConcat(buckets[..i], [bucket], cutoff);
      if bucket.created < cutoff {
        probed := probed + [bucket.name];
        var outcome := probe(bucket.name);
        match outcome
        case NoContents =>
          emptyBuckets := emptyBuckets + [bucket.name];
        case HasContents =>
        case Error =>
          // the catch-all handler: the bucket is skipped and the loop goes on
      }
    }
    assert buckets[..|buckets|] == buckets;
    response := Response(StatusOk, emptyBuckets);
  }

  // ---------------------------------------------------------------------------
  // Structure of the specification functions

  /** The report over a concatenated listing is the concatenation of the reports. */
  lemma {:induction false} FilterConcat(xs: seq<Bucket>, ys: seq<Bucket>, cutoff: int, probe: string -> Probe)
    ensures Filter(xs + ys, cutoff, probe) == Filter(xs, cutoff, probe) + Filter(ys, cutoff, probe)
    decreases |xs|
  {
    if xs == [] {
      assert xs + ys == ys;
    } else {
      assert (xs + ys)[0] == xs[0];
      assert (xs + ys)[1..] == xs[1..] + ys;
      FilterConcat(xs[1..], ys, cutoff, probe);
    }
  }

  /** The probe trace over a concatenated listing is the concatenation of the traces. */
  lemma {:induction false} ProbedConcat(xs: seq<Bucket>, ys: seq<Bucket>, cutoff: int)
    ensures Probed(xs + ys, cutoff) == Probed(xs, cutoff) + Probed(ys, cutoff)
    decreases |xs|
  {
    if xs == [] {
      assert xs + ys == ys;
    } else {
      assert (xs + ys)[0] == xs[0];
      assert (xs + ys)[1..] == xs[1..] + ys;
      ProbedConcat(xs[1..], ys, cutoff);
    }
  }

  /** The one-pass report equals the two-stage one: first the age filter (the probe
      trace), then the emptiness filter over the probed names. */
  lemma {:induction false} FilterIsAgeThenEmptiness(bs: seq<Bucket>, cutoff: int, probe: string -> Probe)
    ensures Filter(bs, cutoff, probe) == KeepEmpty(Probed(bs, cutoff), probe)
    decreases |bs|
  {
    if bs != [] {
      FilterIsAgeThenEmptiness(bs[1..], cutoff, probe);
      var rest := Probed(bs[1..], cutoff);
      if IsOld(bs[0], cutoff) {
        assert Probed(bs, cutoff) == [bs[0].name] + rest;
        assert ([bs[0].name] + rest)[1..] == rest;
      } else {
        assert Probed(bs, cutoff) == rest;
      }
    }
  }

  /** Entry i of the listing adds exactly its own contribution, between the reports
      of the entries before it and after it. */
  lemma FilterSplit(bs: seq<Bucket>, i: nat, cutoff: int, probe: string -> Probe)
    requires i < |bs|
    ensures Filter(bs, cutoff, probe)
         == Filter(bs[..i], cutoff, probe) + Contribution(bs[i], cutoff, probe) + Filter(bs[i + 1..], cutoff, probe)
  {
    assert bs == bs[..i] + bs[i..];
    FilterConcat(bs[..i], bs[i..], cutoff, probe);
    assert bs[i..][1..] == bs[i + 1..];
  }

  /** Entry i of the listing adds exactly its own probe to the trace. */
  lemma ProbedSplit(bs: seq<Bucket>, i: nat, cutoff: int)
    requires i < |bs|
    ensures Probed(bs, cutoff) == Probed(bs[..i], cutoff) + ProbeStep(bs[i], cutoff) + Probed(bs[i + 1..], cutoff)
  {
    assert bs == bs[..i] + bs[i..];
    ProbedConcat(bs[..i], bs[i..], cutoff);
    assert bs[i..][1..] == bs[i + 1..];
  }

  // ---------------------------------------------------------------------------
  // Order and size

  /** The emptiness filter keeps a subsequence of the names it is given. */
  lemma {:induction false} KeepEmptySubsequence(ns: seq<string>, probe: string -> Probe)
    ensures IsSubsequence(KeepEmpty(ns, probe), ns)
    decreases |ns|
  {
    if ns != [] {
      var rest := KeepEmpty(ns[1..], probe);
      KeepEmptySubsequence(ns[1..], probe);
      assert ns == [ns[0]] + ns[1..];
      if probe(ns[0]) == NoContents {
        SubsequenceKeep(rest, ns[1..], ns[0]);
      } else {
        assert KeepEmpty(ns, probe) == rest;
        SubsequenceSkip(rest, ns[1..], ns[0]);
      }
    }
  }

  /** Buckets are probed in listing order, each entry at most once. */
  lemma {:induction false} ProbedSubsequenceOfNames(bs: seq<Bucket>, cutoff: int)
    ensures IsSubsequence(Probed(bs, cutoff), Names(bs))
    decreases |bs|
  {
    if bs != [] {
      var rest := Probed(bs[1..], cutoff);
      ProbedSubsequenceOfNames(bs[1..], cutoff);
      assert Names(bs) == [bs[0].name] + Names(bs[1..]);
      if IsOld(bs[0], cutoff) {
        SubsequenceKeep(rest, Names(bs[1..]), bs[0].name);
      } else {
        assert Probed(bs, cutoff) == rest;
        SubsequenceSkip(rest, Names(bs[1..]), bs[0].name);
      }
    }
  }

  /** Only probed buckets are reported, in the order they were probed. */
  lemma FilterSubsequenceOfProbed(bs: seq<Bucket>, cutoff: int, probe: string -> Probe)
    ensures IsSubsequence(Filter(bs, cutoff, probe), Probed(bs, cutoff))
  {
    FilterIsAgeThenEmptiness(bs, cutoff, probe);
    KeepEmptySubsequence(Probed(bs, cutoff), probe);
  }

  /** The report is a subsequence of the listed names in listing order, and neither
      the report nor the probe trace is longer than the listing. */
  lemma FilterSubsequenceOfNames(bs: seq<Bucket>, cutoff: int, probe: string -> Probe)
    ensures IsSubsequence(Filter(bs, cutoff, probe), Names(bs))
    ensures |Filter(bs, cutoff, probe)| <= |Probed(bs, cutoff)| <= |bs|
  {
    FilterSubsequenceOfProbed(bs, cutoff, probe);
    ProbedSubsequenceOfNames(bs, cutoff);
    SubsequenceTransitive(Filter(bs, cutoff, probe), Probed(bs, cutoff), Names(bs));
    SubsequenceLength(Filter(bs, cutoff, probe), Probed(bs, cutoff));
    SubsequenceLength(Probed(bs, cutoff), Names(bs));
  }

  // ---------------------------------------------------------------------------
  // Inclusion and exclusion

  /** A name is reported exactly when some listed bucket of that name is older than
      the cutoff and its probe succeeded without contents. */
  lemma {:induction false} FilterMembership(bs: seq<Bucket>, cutoff: int, probe: string -> Probe, n: string)
    ensures n in Filter(bs, cutoff, probe)
        <==> exists i :: 0 <= i < |bs| && bs[i].name == n && bs[i].created < cutoff && probe(n) == NoContents
    decreases |bs|
  {
    if bs != [] {
      FilterMembership(bs[1..], cutoff, probe, n);
      if n in Filter(bs[1..], cutoff, probe) {
        var i :| 0 <= i < |bs[1..]| && bs[1..][i].name == n && bs[1..][i].created < cutoff && probe(n) == NoContents;
        assert bs[i + 1] == bs[1..][i];
      }
      if exists i :: 0 <= i < |bs| && bs[i].name == n && bs[i].created < cutoff && probe(n) == NoContents {
        var i :| 0 <= i < |bs| && bs[i].name == n && bs[i].created < cutoff && probe(n) == NoContents;
        if i > 0 {
          assert bs[1..][i - 1] == bs[i];
        }
      }
    }
  }

  /** A name is probed exactly when some listed bucket of that name is older than the cutoff. */
  lemma {:induction false} ProbedMembership(bs: seq<Bucket>, cutoff: int, n: string)
    ensures n in Probed(bs, cutoff) <==> exists i :: 0 <= i < |bs| && bs[i].name == n && bs[i].created < cutoff
    decreases |bs|
  {
    if bs != [] {
      ProbedMembership(bs[1..], cutoff, n);
      if n in Probed(bs[1..], cutoff) {
        var i :| 0 <= i < |bs[1..]| && bs[1..][i].name == n && bs[1..][i].created < cutoff;
        assert bs[i + 1] == bs[1..][i];
      }
      if exists i :: 0 <= i < |bs| && bs[i].name == n && bs[i].created < cutoff {
        var i :| 0 <= i < |bs| && bs[i].name == n && bs[i].created < cutoff;
        if i > 0 {
          assert bs[1..][i - 1] == bs[i];
        }
      }
    }
  }

  /** A raising probe only removes its own bucket: the entries before and after it
      are reported as if it had not been listed. */
  lemma ProbeErrorContained(bs: seq<Bucket>, i: nat, cutoff: int, probe: string -> Probe)
    requires i < |bs|
    requires probe(bs[i].name) == Error
    ensures Filter(bs, cutoff, probe) == Filter(bs[..i], cutoff, probe) + Filter(bs[i + 1..], cutoff, probe)
  {
    FilterSplit(bs, i, cutoff, probe);
  }

  /** A bucket created at the cutoff or later is neither probed nor reported, and the
      rest of the listing is processed as if it were absent. */
  lemma RecentBucketIgnored(bs: seq<Bucket>, i: nat, cutoff: int, probe: string -> Probe)
    requires i < |bs|
    requires bs[i].created >= cutoff
    ensures Probed(bs, cutoff) == Probed(bs[..i], cutoff) + Probed(bs[i + 1..], cutoff)
    ensures Filter(bs, cutoff, probe) == Filter(bs[..i], cutoff, probe) + Filter(bs[i + 1..], cutoff, probe)
  {
    ProbedSplit(bs, i, cutoff);
    FilterSplit(bs, i, cutoff, probe);
  }

  /** With unique names, each listed bucket occurs in the report exactly once when it
      is older than the cutoff and its probe found nothing, and not at all otherwise
      (recent, not empty, or its probe raised). */
  lemma ReportedExactlyOnce(bs: seq<Bucket>, i: nat, cutoff: int, probe: string -> Probe)
    requires i < |bs|
    requires UniqueNames(bs)
    ensures multiset(Filter(bs, cutoff, probe))[bs[i].name]
         == if bs[i].created < cutoff && probe(bs[i].name) == NoContents then 1 else 0
  {
    var n := bs[i].name;
    var before, after := bs[..i], bs[i + 1..];
    FilterSplit(bs, i, cutoff, probe);
    FilterMembership(before, cutoff, probe, n);
    FilterMembership(after, cutoff, probe, n);
    if n in Filter(before, cutoff, probe) {
      assert false;
    }
    if n in Filter(after, cutoff, probe) {
      assert false;
    }
  }

  /** With unique names, each listed bucket is probed exactly once when it is older
      than the cutoff and never otherwise. */
  lemma ProbedExactlyOnce(bs: seq<Bucket>, i: nat, cutoff: int)
    requires i < |bs|
    requires UniqueNames(bs)
    ensures multiset(Probed(bs, cutoff))[bs[i].name] == if bs[i].created < cutoff then 1 else 0
  {
    var n := bs[i].name;
    var before, after := bs[..i], bs[i + 1..];
    ProbedSplit(bs, i, cutoff);
    ProbedMembership(before, cutoff, n);
    ProbedMembership(after, cutoff, n);
    if n in Probed(before, cutoff) {
      assert false;
    }
    if n in Probed(after, cutoff) {
      assert false;
    }
  }

  // ---------------------------------------------------------------------------
  // Worked scenarios

  /** Buckets a (40 days old, empty), b (10 days old) and c (35 days old, one object):
      only a is reported. */
  lemma ScenarioOneOfThree()
    ensures Filter([Bucket("a", 60 * SecondsPerDay), Bucket("b", 90 * SecondsPerDay), Bucket("c", 65 * SecondsPerDay)],
                   Cutoff(100 * SecondsPerDay),
                   n => if n == "a" then NoContents else if n == "c" then HasContents else Error)
         == ["a"]
  {
    var probe: string -> Probe := n => if n == "a" then NoContents else if n == "c" then HasContents else Error;
    var cutoff := Cutoff(100 * SecondsPerDay);
    var bs := [Bucket("a", 60 * SecondsPerDay), Bucket("b", 90 * SecondsPerDay), Bucket("c", 65 * SecondsPerDay)];
    assert "c" != "a";
    assert Filter(bs[2..], cutoff, probe) == Contribution(bs[2], cutoff, probe) + Filter(bs[3..], cutoff, probe) == [];
    assert Filter(bs[1..], cutoff, probe) == Contribution(bs[1], cutoff, probe) + Filter(bs[2..], cutoff, probe) == [];
  }

  /** A 50-day-old bucket whose probe raises is left out of the report. */
  lemma ScenarioProbeRaises()
    ensures Filter([Bucket("d", 50 * SecondsPerDay)], Cutoff(100 * SecondsPerDay), n => Error) == []
  {
  }
}
