/**
 * The middleware under the concrete triple comparator: the configuration the
 * repository's test server mounts (current 1.2.3, minimum 1.2.0, recommended
 * 1.2.1) and what it answers to a handful of requested versions.
 */
module Scenarios {
  import opened Wrappers
  import opened Triples
  import opened Versioning

  function TestOptions(): Options {
    Options(true, "1.2.3", Some("1.2.0"), Some("1.2.1"), None, None, None)
  }

  /** Under exact-match ranges, missing the current range without being newer means being older. */
  lemma OutOfRangeMeansOlder(current: string, requested: string)
    requires TripleSemver().valid(current) && TripleSemver().valid(requested)
    ensures !TripleSemver().lt(current, requested) && !TripleSemver().satisfies(requested, current)
      <==> TripleSemver().lt(requested, current)
  {
    Trichotomy(requested, current);
    SatisfiesIsExact(requested, current);
    TripleSemverLawful();
  }

  /**
   * The test server's request without a version header: the route runs once
   * and already finds `X-API-Version: 1.2.3`, the only header written.
   */
  method ServeWithoutVersion() returns (outcome: Outcome, headers: map<string, Option<string>>, calls: nat, routed: seq<map<string, Option<string>>>)
    ensures outcome == Continue
    ensures headers == map["X-API-Version" := Some("1.2.3")]
    ensures calls == 1
    ensures routed == [map["X-API-Version" := Some("1.2.3")]]
  {
    var middleware := new Middleware(TestOptions(), TripleSemver());
    var res := new Response();
    var next := new Chain();
    outcome := middleware.Handle(Request(map[]), res, next);
    assert Apply(map[], [VersionWrite(TestOptions())]) == map["X-API-Version" := Some("1.2.3")];
    headers, calls, routed := res.headers, next.calls, next.seen;
  }

  /** What the triple comparator answers about the versions used below. */
  lemma Answers()
    ensures var c := TripleSemver();
      && c.valid("1.2.3") && c.valid("1.2.0") && c.valid("1.2.1") && c.valid("1.1.0") && c.valid("2.0.0")
      && c.lt("1.2.3", "2.0.0")
      && !c.lt("1.2.3", "1.1.0") && !c.satisfies("1.1.0", "1.2.3") && !c.gte("1.1.0", "1.2.0")
      && !c.lt("1.2.3", "1.2.0") && !c.satisfies("1.2.0", "1.2.3") && c.gte("1.2.0", "1.2.0") && !c.gte("1.2.0", "1.2.1")
      && !c.lt("1.2.3", "1.2.1") && !c.satisfies("1.2.1", "1.2.3") && c.gte("1.2.1", "1.2.0") && c.gte("1.2.1", "1.2.1")
  {
    Parses();
  }

  /** A literal version string is the format of its triple. */
  lemma Formats()
    ensures Format(Version(1, 2, 3)) == "1.2.3"
    ensures Format(Version(1, 2, 0)) == "1.2.0"
    ensures Format(Version(1, 2, 1)) == "1.2.1"
    ensures Format(Version(1, 1, 0)) == "1.1.0"
    ensures Format(Version(2, 0, 0)) == "2.0.0"
  {
  }

  lemma Parses()
    ensures Parse("1.2.3") == Some(Version(1, 2, 3))
    ensures Parse("1.2.0") == Some(Version(1, 2, 0))
    ensures Parse("1.2.1") == Some(Version(1, 2, 1))
    ensures Parse("1.1.0") == Some(Version(1, 1, 0))
    ensures Parse("2.0.0") == Some(Version(2, 0, 0))
  {
    Formats();
    ParseFormat(Version(1, 2, 3));
    ParseFormat(Version(1, 2, 0));
    ParseFormat(Version(1, 2, 1));
    ParseFormat(Version(1, 1, 0));
    ParseFormat(Version(2, 0, 0));
  }

  /** The two headers under the test configuration. */
  lemma TestWrites()
    ensures VersionWrite(TestOptions()) == HeaderWrite("X-API-Version", Some("1.2.3"))
    ensures RecommendedWrite(TestOptions()) == HeaderWrite("X-API-Recommended-Version", Some("1.2.1"))
  {
  }

  /** The rejection messages quoted below. */
  lemma Messages()
    ensures InvalidMessage("not-a-version") == "Invalid requested version: not-a-version"
    ensures UnsupportedMessage("2.0.0") == "Unsupported version: 2.0.0"
    ensures UnsupportedMessage("1.1.0") == "Unsupported version: 1.1.0"
  {
  }

  /** `not-a-version` is rejected as invalid. */
  lemma NotAVersionRejected()
    ensures Negotiate(TestOptions(), TripleSemver(), Some("not-a-version")) ==
      Decision([HeaderWrite("X-API-Version", Some("1.2.3"))],
               Reject("Invalid requested version: not-a-version", 400, "1.2.3"))
  {
    var s := "not-a-version";
    assert forall i :: 0 <= i < |s| ==> s[i] != '.';
    SplitDotFree(s);
    assert !TripleSemver().valid(s);
    TestWrites();
    Messages();
    InvalidRejects(TestOptions(), TripleSemver(), s);
  }

  /** 2.0.0 is newer than the server's 1.2.3: rejected, no recommendation. */
  lemma NewerVersionRejected()
    ensures Negotiate(TestOptions(), TripleSemver(), Some("2.0.0")) ==
      Decision([HeaderWrite("X-API-Version", Some("1.2.3"))],
               Reject("Unsupported version: 2.0.0", 400, "1.2.3"))
  {
    Answers();
    TestWrites();
    Messages();
    NewerRejects(TestOptions(), TripleSemver(), "2.0.0");
  }

  /** 1.1.0 is below the minimum 1.2.0: rejected, and told to use 1.2.1. */
  lemma BelowMinimumVersionRejected()
    ensures Negotiate(TestOptions(), TripleSemver(), Some("1.1.0")) ==
      Decision([HeaderWrite("X-API-Version", Some("1.2.3")), HeaderWrite("X-API-Recommended-Version", Some("1.2.1"))],
               Reject("Unsupported version: 1.1.0", 400, "1.2.3"))
  {
    Answers();
    TestWrites();
    Messages();
    BelowMinimumRejects(TestOptions(), TripleSemver(), "1.1.0");
  }

  /** 1.2.0 meets the minimum but not the recommendation: let through, and told to use 1.2.1. */
  lemma BelowRecommendedVersionAdvised()
    ensures Negotiate(TestOptions(), TripleSemver(), Some("1.2.0")) ==
      Decision([HeaderWrite("X-API-Version", Some("1.2.3")), HeaderWrite("X-API-Recommended-Version", Some("1.2.1"))],
               Continue)
  {
    Answers();
    TestWrites();
    BelowRecommendedAdvises(TestOptions(), TripleSemver(), "1.2.0");
  }

  /** 1.2.1 is the recommendation itself: let through without advice. */
  lemma RecommendedVersionPasses()
    ensures Negotiate(TestOptions(), TripleSemver(), Some("1.2.1")) ==
      Decision([HeaderWrite("X-API-Version", Some("1.2.3"))], Continue)
  {
    Answers();
    TestWrites();
    RejectedIff(TestOptions(), TripleSemver(), Some("1.2.1"));
    AdvisedIff(TestOptions(), TripleSemver(), Some("1.2.1"));
  }
}
