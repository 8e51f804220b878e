# Header-based API version negotiation, in Dafny

This project models the versioning middleware of `ts-framework-versioning`.
`Versioning.middleware(options)` returns a request handler. Each time that handler runs, it:

- advertises the server's current version in a response header (`X-API-Version` by default);
- reads the version the client asks for from a request header (`X-API-Requested-Version` by default);
- then does one of three things:
  - rejects the request with an HTTP 400 error;
  - lets the request through, optionally advising an upgrade in `X-API-Recommended-Version`;
  - lets the request through with no advice.

Modules:

- `Versioning` (versioning.dfy) is the core.
  - `Options` is the configuration. A field that is unset or empty is treated as missing, as JavaScript's `||` and `&&` do.
  - `Negotiate` is the decision as a pure function. It returns the ordered header writes and the `Outcome`: `Continue`, or `Reject(message, status, current)`.
  - `Middleware.Handle` is the handler itself, written imperatively. It writes to a `Response` object's header map and calls `Next` on a `Chain` object. Its postcondition ties both objects' new state and the outcome to `Negotiate`.
  - The branch lemmas and the if-and-only-if lemmas state the decision table.
- `Semver` (semver.dfy) stands in for the semver library, which is not part of this model.
  - `Comparator` holds the four calls the handler makes: `valid`, `lt`, `gte` and `satisfies`.
  - `Lawful` states the laws the lemmas rely on:
    - `lt` is a strict order on valid versions;
    - `gte` is its complement;
    - every valid version satisfies itself as a range.
- `Triples` (triples.dfy) is a concrete comparator, proved `Lawful`.
  - Versions are plain `major.minor.patch` strings, following section 2 of Semantic Versioning 2.0.0. Precedence follows section 11.
  - A bare version used as a range is an exact match, which is how the library reads one.
  - Parsing and formatting are proved inverse, so two valid strings name the same version exactly when they are equal.
- `Scenarios` (scenarios.dfy) states what the model answers, under the repository's test configuration (current 1.2.3, minimum 1.2.0, recommended 1.2.1), to concrete requests.

Two behaviours of the code that the model keeps:

- The below-minimum branch (dist/Versioning.js:32) writes the recommended header unguarded. The model writes `RecommendedWrite(o)` with value `o.recommended`, which is `None` (JavaScript `undefined`) when no recommendation is configured.
- The current-version header (dist/Versioning.js:19) survives only when the recommended header has a different name. With a shared name, both writes of the recommended header overwrite it: the below-minimum rejection (line 32) and the advisory branch (line 36), whose request continues (`SharedHeaderNameOverwritten`, `SharedHeaderNameLostOnContinue`).

## Model

| member | source | states |
|---|---|---|
| `Versioning.Negotiate` | dist/Versioning.js:17-41 | the current-version header is always written first; the recommended header is the only other write; every rejection is status 400, carries `current` and quotes the requested value in one of the two messages |
| `Versioning.AbsentContinues` | dist/Versioning.js:21-40 | a missing or empty requested version always continues, whatever the minimum and recommendation, with only the current-version header written |
| `Versioning.InvalidRejects` | dist/Versioning.js:22-24 | a non-empty requested value that is not a valid version is rejected with `Invalid requested version: <value>`, 400, `{current}`, and no recommended header |
| `Versioning.NewerRejects` | dist/Versioning.js:26-27 | a valid requested version above `current` is rejected with `Unsupported version: <value>`, and no recommended header is written |
| `Versioning.BelowMinimumRejects` | dist/Versioning.js:29-33 | a version outside the current range and below a set minimum gets the recommended header (value possibly unset), then `Unsupported version: <value>` |
| `Versioning.BelowRecommendedAdvises` | dist/Versioning.js:35-40 | a version outside the range, not below the minimum and below a set recommendation gets the recommended header and continues |
| `Versioning.SatisfyingContinues` | dist/Versioning.js:29-40 | a valid version that is not newer than `current` and satisfies it continues with only the current-version header |
| `Versioning.RejectedIff` | dist/Versioning.js:22-33 | the request is rejected if and only if it is invalid, newer than `current`, or outside the range and below the minimum |
| `Versioning.AdvisedIff` | dist/Versioning.js:29-37 | the recommended header is written if and only if a valid, not newer version misses the range and is below the minimum or the recommendation |
| `Versioning.CurrentContinues` | dist/Versioning.js:19-40 | for a lawful comparator, requesting exactly `current` continues with only the current-version header |
| `Versioning.MinimumIsEnough` | dist/Versioning.js:31 | for a lawful comparator, requesting exactly the minimum is rejected only when it is newer than `current`: equality passes the minimum check |
| `Versioning.RecommendedIsEnough` | dist/Versioning.js:35-36 | for a lawful comparator, requesting exactly the recommendation is never advised, except on a rejection |
| `Versioning.ApplyAt` | dist/Versioning.js:19-36 | applying `res.set` writes in order leaves each written header holding its last write, and leaves every other header as it was |
| `Versioning.VersionHeaderAlwaysSet` | dist/Versioning.js:19-36 | if the recommended header has a different name, the response carries `current` under the version header on every outcome, and no other header is touched |
| `Versioning.SharedHeaderNameOverwritten` | dist/Versioning.js:19-36 | if both header names coincide, every decision that writes the recommended header (below-minimum rejection or advisory continue) leaves that header holding the recommendation, not `current` |
| `Versioning.SharedHeaderNameLostOnContinue` | dist/Versioning.js:35-40 | if both header names coincide, an advised request continues while its response no longer carries `current` |
| `Versioning.Response.Set` | dist/Versioning.js:19 | `res.set(name, value)` replaces that one header |
| `Versioning.Chain.Next` | dist/Versioning.js:40 | `next()` is counted once per call, and the next handler is recorded as seeing the response headers as they stand at that call |
| `Versioning.Middleware.constructor` | dist/Versioning.js:13-17 | the handler captures the options and the comparator unchanged |
| `Versioning.Middleware.Handle` | dist/Versioning.js:17-41 | the outcome and the response headers are those of `Negotiate`; `next()` is called exactly once on continue and never on reject, and only after every header write, so the next handler sees the final headers |
| `Triples.ParseFormat` | dist/Versioning.js:22 | every version's canonical form is valid and reads back as that version |
| `Triples.FormatParse` | dist/Versioning.js:22 | every valid version string is the canonical form of what it reads as |
| `Triples.ParseInjective` | dist/Versioning.js:22 | two valid strings denote the same version if and only if they are equal |
| `Triples.NumeralOfValue` | dist/Versioning.js:22 | a numeric identifier without leading zeroes is the numeral of its value |
| `Triples.TripleSemverLawful` | dist/Versioning.js:22-35 | the concrete comparator obeys every law in `Semver.Lawful` |
| `Triples.SatisfiesIsExact` | dist/Versioning.js:29 | a valid version satisfies a bare version as a range if and only if they are the same version |
| `Triples.Trichotomy` | dist/Versioning.js:26 | of two valid versions exactly one holds: the first is below, they are equal, or the second is below |
| `Scenarios.OutOfRangeMeansOlder` | dist/Versioning.js:26-29 | with exact-match ranges, a valid version reaches the minimum and recommendation checks if and only if it is strictly older than `current` |
| `Scenarios.ServeWithoutVersion` | tests/Versioning.verbose.test.ts:34-37 | the test server's request without a version header reaches the route once, and the route already sees only `X-API-Version: 1.2.3` |
| `Scenarios.NotAVersionRejected` | dist/Versioning.js:22-24 | `not-a-version` is rejected with `Invalid requested version: not-a-version`, 400, current 1.2.3 |
| `Scenarios.NewerVersionRejected` | dist/Versioning.js:26-27 | 2.0.0 against 1.2.3 is rejected with `Unsupported version: 2.0.0` and no recommendation |
| `Scenarios.BelowMinimumVersionRejected` | dist/Versioning.js:29-33 | 1.1.0 is rejected and the response advises 1.2.1 |
| `Scenarios.BelowRecommendedVersionAdvised` | dist/Versioning.js:35-36 | 1.2.0 continues and the response advises 1.2.1 |
| `Scenarios.RecommendedVersionPasses` | dist/Versioning.js:35 | 1.2.1, the recommendation itself, continues without advice |

## Left out

- The one-time `Logger.info` at setup when `verbose` is set (dist/Versioning.js:14-16): it is logging I/O. `verbose` is kept in `Options` but has no effect in the model.
- The `logger` option (dist/types/Versioning.d.ts:9): the implementation never reads it.
- The semver library's internals. `Comparator` is a parameter, and the lemmas that need more than its four answers assume `Lawful`.
- The library throwing on an invalid `current`, `minimum` or `recommended` passed to `lt` or `gte`: the model's comparator calls are total functions. The concrete `TripleSemver` answers false there.
- Pre-release and build-metadata parts, a leading `v` and surrounding whitespace are not accepted by `Triples.Parse`, although the real library accepts them. `Triples` is an instance of the comparator, not a model of that library.
- Transport details:
  - request and response header names are compared exactly; the HTTP framework compares them case-insensitively;
  - how the transport renders a header written with an unset value is not modelled;
  - how a thrown `HttpError` becomes an HTTP response is not modelled: `Reject` carries its message, status and payload.
  - Only a response's headers are modelled.
- The source map comment (dist/Versioning.js:45).
