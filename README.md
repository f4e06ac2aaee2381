# Empty aged buckets report

A Dafny model of the AWS Lambda handler in `sg-demo/lambda_function.py`. The handler
lists an account's S3 buckets and computes a cutoff 30 days before the invocation time.
It keeps the buckets created strictly before the cutoff. For each kept bucket it probes
for a single object (`list_objects_v2` with `MaxKeys=1`). It reports the bucket's name
when the probe succeeds and the response has no `Contents` key. A probe that raises is
swallowed by the bare `except:` and the bucket is skipped. The names are returned in
listing order inside `{statusCode: 200, emptyBuckets: [...]}`.

Layout:

- `Subsequence.dfy` (module `Subsequence`): order-preserving subsequences and their
  length, membership and transitivity lemmas.
- `LambdaFunction.dfy` (module `LambdaFunction`): the model of the handler.
  - `Bucket`, `Probe` and `Response` are the data.
  - `Cutoff` is the 30-day boundary.
  - `Filter` is the one-pass specification of the report. `Probed` is the sequence of
    names handed to the probe. `KeepEmpty` is the emptiness stage taken on its own.
  - `LambdaHandler` is the loop, proved equal to `Filter` and `Probed`.
  - The lemmas state ordering, inclusion, exclusion and error containment.

Environment, as modelled:

- The bucket listing is a `seq<Bucket>` parameter. It is fixed for the whole loop. The
  rebinding of `response` inside the loop (line 20) does not change the list being
  iterated, because line 14 has already taken `response['Buckets']`.
- The clock is an `int` parameter `now` in epoch seconds. Creation times are `int`
  epoch seconds too.
- The probe call is an oracle `probe: string -> Probe`. `HasContents` means the
  response had a `Contents` key. `NoContents` means it had none. `Error` means the call
  raised anything at all. The oracle is a function of the bucket name, so the same
  listing and the same probe answers always give the same report. The method's
  `ensures` equate its result with a function of its inputs.
- The handler's `probed` out-parameter records the probe calls in order. The source has
  no such value; it is there so that "only old buckets are probed" can be stated.

## Model

| member | source | states |
|---|---|---|
| `LambdaFunction.Cutoff` | sg-demo/lambda_function.py:7-8 | the cutoff is exactly 30 days (2,592,000 s) before the invocation time, so strictly earlier than it |
| `LambdaFunction.LambdaHandler` | sg-demo/lambda_function.py:7-30 | the loop's report equals `Filter` over the whole fixed listing; its probe calls are exactly `Probed`; the status code is always 200; an empty listing gives an empty report and no probes |
| `LambdaFunction.FilterConcat` | sg-demo/lambda_function.py:14-22 | the report over two listings placed end to end is the first report followed by the second: each entry is judged on its own, in order |
| `LambdaFunction.ProbedConcat` | sg-demo/lambda_function.py:14-20 | the probe trace over two listings placed end to end is the first trace followed by the second |
| `LambdaFunction.FilterIsAgeThenEmptiness` | sg-demo/lambda_function.py:18-22 | the one-pass report equals the two-stage pipeline: the age filter (the probe trace), then the emptiness filter over the probed names |
| `LambdaFunction.FilterSplit` | sg-demo/lambda_function.py:14-22 | entry i contributes exactly its own name, or nothing, between the reports of the entries before and after it |
| `LambdaFunction.ProbedSplit` | sg-demo/lambda_function.py:14-20 | entry i adds exactly one probe when it is old, and none otherwise, between the probes of the entries before and after it |
| `LambdaFunction.KeepEmptySubsequence` | sg-demo/lambda_function.py:21-22 | the emptiness stage keeps an order-preserving subsequence of the names it probes |
| `LambdaFunction.ProbedSubsequenceOfNames` | sg-demo/lambda_function.py:14-20 | probes are issued in listing order, at most one per listed entry |
| `LambdaFunction.FilterSubsequenceOfProbed` | sg-demo/lambda_function.py:19-22 | only probed buckets are reported, in the order they were probed |
| `LambdaFunction.FilterSubsequenceOfNames` | sg-demo/lambda_function.py:12-22 | the report is an order-preserving subsequence of the listed names; its length is at most the number of probes, which is at most the listing's length |
| `LambdaFunction.FilterMembership` | sg-demo/lambda_function.py:18-22 | a name is reported if and only if some listed bucket of that name was created strictly before the cutoff and its probe succeeded without `Contents` |
| `LambdaFunction.ProbedMembership` | sg-demo/lambda_function.py:18-20 | a name is probed if and only if some listed bucket of that name was created strictly before the cutoff |
| `LambdaFunction.ProbeErrorContained` | sg-demo/lambda_function.py:19-24 | a probe that raises removes only its own bucket: the entries before and after it are reported exactly as if it were not listed, so the loop carries on |
| `LambdaFunction.RecentBucketIgnored` | sg-demo/lambda_function.py:18 | a bucket created at the cutoff or later is neither probed nor reported, and the rest of the listing is handled as if it were absent |
| `LambdaFunction.ReportedExactlyOnce` | sg-demo/lambda_function.py:14-22 | with unique names, a listed bucket occurs exactly once in the report when it is older than the cutoff and its probe found nothing, and zero times otherwise (recent, has contents, or the probe raised) |
| `LambdaFunction.ProbedExactlyOnce` | sg-demo/lambda_function.py:18-20 | with unique names, a listed bucket is probed exactly once when it is older than the cutoff and never otherwise |
| `LambdaFunction.ScenarioOneOfThree` | sg-demo/lambda_function.py:14-22 | buckets a (40 days old, empty), b (10 days old) and c (35 days old, one object) give the report `["a"]` |
| `LambdaFunction.ScenarioProbeRaises` | sg-demo/lambda_function.py:19-24 | a 50-day-old bucket whose probe raises is absent from the report |
| `Subsequence.SubsequenceLength` | sg-demo/lambda_function.py:12-22 | a subsequence is never longer than the sequence it is taken from (used for the report's length bound) |
| `Subsequence.SubsequenceTransitive` | sg-demo/lambda_function.py:12-22 | a subsequence of a subsequence is a subsequence (used to chain report, probes and listing) |

## Left out

- Creating the boto3 client and the `list_buckets` call (lines 6 and 10): foreign SDK and network I/O. The listing is a parameter.
- A failure of `list_buckets` itself: it propagates out of the handler with no envelope, so it is a runtime fault and not part of the modelled result.
- The real `list_objects_v2` call (line 20): it is the three-valued `Probe` oracle. Exception types are not distinguished, because the bare `except:` catches them all.
- `datetime.now(timezone.utc)` and timezone-aware datetime arithmetic (lines 7-8): clock and library behaviour. Times are integer epoch seconds, so sub-second differences are not modelled.
- The `event` and `context` parameters: the handler never reads them.
- ReportedExactlyOnce: requires unique bucket names, which the provider guarantees within an account. Without it, two entries with the same name would make the count differ. `FilterSplit`, `ProbeErrorContained` and `RecentBucketIgnored` state the per-entry facts without that assumption.
- The probe oracle answers as a function of the name. A live service could answer two calls on the same name differently, but every entry is probed at most once.
