/**
 * Header-based API version negotiation.  `Middleware` is what
 * `Versioning.middleware(options)` returns: a handler that, on every request,
 * advertises the server's current version, reads the version the client asks
 * for, and either lets the request through (possibly advising an upgrade) or
 * rejects it with a 400 error.  `Negotiate` is the same decision as a pure
 * function, and specifies the handler.
 */
module Versioning {
  import opened Wrappers
  import opened Semver

  const DefaultVersionHeader: string := "X-API-Version"
  const DefaultRequestedHeader: string := "X-API-Requested-Version"
  const DefaultRecommendedHeader: string := "X-API-Recommended-Version"

  /** `HttpCode.Client.BAD_REQUEST`. */
  const BadRequest: int := 400

  /** JavaScript truthiness of an optional string: both `undefined` and "" are false. */
  predicate Truthy(v: Option<string>) {
    v.Some? && v.value != ""
  }

  /** `v || fallback` on an optional string. */
  function Or(v: Option<string>, fallback: string): string {
    if Truthy(v) then v.value else fallback
  }

  /** The middleware's configuration; every field but `current` may be left unset. */
  datatype Options = Options(
    verbose: bool,
    current: string,
    minimum: Option<string>,
    recommended: Option<string>,
    header: Option<string>,
    requestedHeader: Option<string>,
    recommendedHeader: Option<string>)
  {
    function VersionHeader(): string {
      Or(header, DefaultVersionHeader)
    }

    function RequestedHeader(): string {
      Or(requestedHeader, DefaultRequestedHeader)
    }

    function RecommendedHeader(): string {
      Or(recommendedHeader, DefaultRecommendedHeader)
    }
  }

  /** An incoming request, seen through its headers. */
  datatype Request = Request(headers: map<string, string>) {
    function Header(name: string): Option<string> {
      if name in headers then Some(headers[name]) else None
    }
  }

  /** One `res.set(name, value)`; the value is `None` when the source passes `undefined`. */
  datatype HeaderWrite = HeaderWrite(name: string, value: Option<string>)

  /** `next()` was called, or an `HttpError(message, status, { current })` was thrown. */
  datatype Outcome = Continue | Reject(message: string, status: int, current: string)

  /** The header writes in the order they are made, and how the request ends. */
  datatype Decision = Decision(writes: seq<HeaderWrite>, outcome: Outcome)

  function InvalidMessage(requested: string): string {
    "Invalid requested version: " + requested
  }

  function UnsupportedMessage(requested: string): string {
    "Unsupported version: " + requested
  }

  function VersionWrite(o: Options): HeaderWrite {
    HeaderWrite(o.VersionHeader(), Some(o.current))
  }

  function RecommendedWrite(o: Options): HeaderWrite {
    HeaderWrite(o.RecommendedHeader(), o.recommended)
  }

  /** A configured minimum that `requested` does not reach. */
  predicate BelowMinimum(o: Options, c: Comparator, requested: string) {
    Truthy(o.minimum) && !c.gte(requested, o.minimum.value)
  }

  /** A configured recommendation that `requested` does not reach. */
  predicate BelowRecommended(o: Options, c: Comparator, requested: string) {
    Truthy(o.recommended) && !c.gte(requested, o.recommended.value)
  }

  /**
   * The decision the handler makes for the requested-version header value
   * `requested`.  The current-version header always comes first; the only
   * other header ever written is the recommended one; every rejection is a
   * 400 carrying the current version and quoting the requested one.
   */
  function Negotiate(o: Options, c: Comparator, requested: Option<string>): (d: Decision)
    ensures 1 <= |d.writes| <= 2 && d.writes[0] == VersionWrite(o)
    ensures |d.writes| == 2 ==> d.writes[1] == RecommendedWrite(o)
    ensures d.outcome.Reject? ==>
      && Truthy(requested)
      && d.outcome.status == BadRequest
      && d.outcome.current == o.current
      && (d.outcome.message == InvalidMessage(requested.value) || d.outcome.message == UnsupportedMessage(requested.value))
  {
    var version := VersionWrite(o);
    if Truthy(requested) && !c.valid(requested.value) then
      Decision([version], Reject(InvalidMessage(requested.value), BadRequest, o.current))
    else if Truthy(requested) && c.lt(o.current, requested.value) then
      Decision([version], Reject(UnsupportedMessage(requested.value), BadRequest, o.current))
    else if Truthy(requested) && !c.satisfies(requested.value, o.current) then
      if BelowMinimum(o, c, requested.value) then
        Decision([version, RecommendedWrite(o)], Reject(UnsupportedMessage(requested.value), BadRequest, o.current))
      else if BelowRecommended(o, c, requested.value) then
        Decision([version, RecommendedWrite(o)], Continue)
      else
        Decision([version], Continue)
    else
      Decision([version], Continue)
  }

  /** The response headers after `writes` are applied in order; a later write replaces an earlier one. */
  function Apply(headers: map<string, Option<string>>, writes: seq<HeaderWrite>): map<string, Option<string>>
    decreases writes
  {
    if writes == [] then headers else Apply(headers[writes[0].name := writes[0].value], writes[1..])
  }

  // ----- the decision table, branch by branch -----

  /** No requested version, or an empty one: continue, with only the current-version header. */
  lemma AbsentContinues(o: Options, c: Comparator, requested: Option<string>)
    requires !Truthy(requested)
    ensures Negotiate(o, c, requested) == Decision([VersionWrite(o)], Continue)
  {
  }

  /** A requested version the comparator does not accept is rejected as invalid. */
  lemma InvalidRejects(o: Options, c: Comparator, requested: string)
    requires requested != "" && !c.valid(requested)
    ensures Negotiate(o, c, Some(requested)) ==
      Decision([VersionWrite(o)], Reject(InvalidMessage(requested), BadRequest, o.current))
  {
  }

  /** A valid requested version newer than the server's is rejected, and no upgrade is advised. */
  lemma NewerRejects(o: Options, c: Comparator, requested: string)
    requires requested != "" && c.valid(requested) && c.lt(o.current, requested)
    ensures Negotiate(o, c, Some(requested)) ==
      Decision([VersionWrite(o)], Reject(UnsupportedMessage(requested), BadRequest, o.current))
  {
  }

  /**
   * A version outside the current range and below the minimum is rejected,
   * after the recommended header is written (even when no recommendation is
   * configured).
   */
  lemma BelowMinimumRejects(o: Options, c: Comparator, requested: string)
    requires requested != "" && c.valid(requested) && !c.lt(o.current, requested)
    requires !c.satisfies(requested, o.current) && BelowMinimum(o, c, requested)
    ensures Negotiate(o, c, Some(requested)) ==
      Decision([VersionWrite(o), RecommendedWrite(o)], Reject(UnsupportedMessage(requested), BadRequest, o.current))
  {
  }

  /** A version outside the current range, not below the minimum but below the recommendation, is advised and let through. */
  lemma BelowRecommendedAdvises(o: Options, c: Comparator, requested: string)
    requires requested != "" && c.valid(requested) && !c.lt(o.current, requested)
    requires !c.satisfies(requested, o.current) && !BelowMinimum(o, c, requested)
    requires BelowRecommended(o, c, requested)
    ensures Negotiate(o, c, Some(requested)) == Decision([VersionWrite(o), RecommendedWrite(o)], Continue)
    ensures o.recommended.Some? && o.recommended.value != ""
  {
  }

  /** A valid version that satisfies the current one continues with only the current-version header. */
  lemma SatisfyingContinues(o: Options, c: Comparator, requested: string)
    requires c.valid(requested) && !c.lt(o.current, requested) && c.satisfies(requested, o.current)
    ensures Negotiate(o, c, Some(requested)) == Decision([VersionWrite(o)], Continue)
  {
  }

  // ----- the table as a whole -----

  /** The request is rejected exactly on the three rejecting branches. */
  lemma RejectedIff(o: Options, c: Comparator, requested: Option<string>)
    ensures Negotiate(o, c, requested).outcome.Reject? <==>
      && Truthy(requested)
      && (|| !c.valid(requested.value)
          || c.lt(o.current, requested.value)
          || (!c.satisfies(requested.value, o.current) && BelowMinimum(o, c, requested.value)))
  {
  }

  /** The recommended header is written exactly when a valid, not newer version misses the current range and is below the minimum or the recommendation. */
  lemma AdvisedIff(o: Options, c: Comparator, requested: Option<string>)
    ensures |Negotiate(o, c, requested).writes| == 2 <==>
      && Truthy(requested)
      && c.valid(requested.value)
      && !c.lt(o.current, requested.value)
      && !c.satisfies(requested.value, o.current)
      && (BelowMinimum(o, c, requested.value) || BelowRecommended(o, c, requested.value))
  {
  }

  // ----- consequences of the comparator's laws -----

  /** Asking for exactly the current version is always let through with only the current-version header. */
  lemma CurrentContinues(o: Options, c: Comparator)
    requires Lawful(c) && c.valid(o.current)
    ensures Negotiate(o, c, Some(o.current)) == Decision([VersionWrite(o)], Continue)
  {
  }

  /** Asking for exactly the minimum never trips the minimum check: at worst it is a newer-than-server rejection. */
  lemma MinimumIsEnough(o: Options, c: Comparator, requested: string)
    requires Lawful(c) && c.valid(requested) && Truthy(o.minimum) && requested == o.minimum.value
    ensures Negotiate(o, c, Some(requested)).outcome.Reject? ==> c.lt(o.current, requested)
  {
  }

  /** Asking for exactly the recommendation is never advised to upgrade, unless it is rejected outright. */
  lemma RecommendedIsEnough(o: Options, c: Comparator, requested: string)
    requires Lawful(c) && c.valid(requested) && Truthy(o.recommended) && requested == o.recommended.value
    ensures |Negotiate(o, c, Some(requested)).writes| == 2 ==> Negotiate(o, c, Some(requested)).outcome.Reject?
  {
  }

  // ----- the response headers -----

  /** Applying writes only touches the names written, and the last write to a name wins. */
  lemma {:induction false} ApplyAt(headers: map<string, Option<string>>, writes: seq<HeaderWrite>, name: string)
    ensures (exists i :: 0 <= i < |writes| && writes[i].name == name) ==>
      name in Apply(headers, writes) && Apply(headers, writes)[name] == writes[LastWrite(writes, name)].value
    ensures (forall i :: 0 <= i < |writes| ==> writes[i].name != name) ==>
      (name in Apply(headers, writes) <==> name in headers) &&
      (name in headers ==> Apply(headers, writes)[name] == headers[name])
    decreases writes
  {
    if writes != [] {
      ApplyAt(headers[writes[0].name := writes[0].value], writes[1..], name);
      if exists i :: 0 <= i < |writes| && writes[i].name == name {
        if exists i :: 0 <= i < |writes| - 1 && writes[1..][i].name == name {
          var i :| 0 <= i < |writes| - 1 && writes[1..][i].name == name;
          assert LastWrite(writes, name) == 1 + LastWrite(writes[1..], name);
        } else {
          assert writes[0].name == name;
        }
      }
    }
  }

  lemma ApplyPair(headers: map<string, Option<string>>, first: HeaderWrite, second: HeaderWrite)
    ensures Apply(headers, [first, second]) == headers[first.name := first.value][second.name := second.value]
  {
    var once := headers[first.name := first.value];
    var twice := once[second.name := second.value];
    assert [first, second][1..] == [second];
    assert [second][1..] == [];
    assert Apply(twice, []) == twice;
    assert Apply(once, [second]) == Apply(twice, []);
    assert Apply(headers, [first, second]) == Apply(once, [second]);
  }

  /** The index of the last write to `name`. */
  function LastWrite(writes: seq<HeaderWrite>, name: string): (k: nat)
    requires exists i :: 0 <= i < |writes| && writes[i].name == name
    ensures k < |writes| && writes[k].name == name
    ensures forall j :: k < j < |writes| ==> writes[j].name != name
  {
    if exists i :: 0 <= i < |writes| - 1 && writes[1..][i].name == name then
      1 + LastWrite(writes[1..], name)
    else
      0
  }

  /**
   * Whatever the outcome, the response carries the current version under the
   * version header, provided the recommended header has a different name;
   * and no header other than those two is touched.
   */
  lemma VersionHeaderAlwaysSet(o: Options, c: Comparator, requested: Option<string>, headers: map<string, Option<string>>)
    requires o.VersionHeader() != o.RecommendedHeader()
    ensures var after := Apply(headers, Negotiate(o, c, requested).writes);
      && o.VersionHeader() in after && after[o.VersionHeader()] == Some(o.current)
      && forall name :: name != o.VersionHeader() && name != o.RecommendedHeader() ==>
           (name in after <==> name in headers) && (name in headers ==> after[name] == headers[name])
  {
    var writes := Negotiate(o, c, requested).writes;
    ApplyAt(headers, writes, o.VersionHeader());
    assert LastWrite(writes, o.VersionHeader()) == 0;
    forall name | name != o.VersionHeader() && name != o.RecommendedHeader()
      ensures var after := Apply(headers, writes);
        (name in after <==> name in headers) && (name in headers ==> after[name] == headers[name])
    {
      ApplyAt(headers, writes, name);
    }
  }

  /**
   * When both headers share a name, every decision that writes the
   * recommended header (the below-minimum rejection and the advisory
   * continue alike) leaves that header holding the recommendation, not the
   * current version.
   */
  lemma SharedHeaderNameOverwritten(o: Options, c: Comparator, requested: Option<string>, headers: map<string, Option<string>>)
    requires o.VersionHeader() == o.RecommendedHeader()
    requires |Negotiate(o, c, requested).writes| == 2
    ensures var after := Apply(headers, Negotiate(o, c, requested).writes);
      o.VersionHeader() in after && after[o.VersionHeader()] == o.recommended
  {
    var writes := Negotiate(o, c, requested).writes;
    ApplyAt(headers, writes, o.VersionHeader());
    assert LastWrite(writes, o.VersionHeader()) == 1;
  }

  /**
   * With a shared header name, a request advised to upgrade continues, yet
   * its response no longer carries the current version.
   */
  lemma SharedHeaderNameLostOnContinue(o: Options, c: Comparator, requested: string, headers: map<string, Option<string>>)
    requires o.VersionHeader() == o.RecommendedHeader()
    requires requested != "" && c.valid(requested) && !c.lt(o.current, requested)
    requires !c.satisfies(requested, o.current) && !BelowMinimum(o, c, requested)
    requires BelowRecommended(o, c, requested) && o.recommended != Some(o.current)
    ensures var d := Negotiate(o, c, Some(requested));
      && d.outcome == Continue
      && o.VersionHeader() in Apply(headers, d.writes)
      && Apply(headers, d.writes)[o.VersionHeader()] != Some(o.current)
  {
    BelowRecommendedAdvises(o, c, requested);
    SharedHeaderNameOverwritten(o, c, Some(requested), headers);
  }

  // ----- the handler itself -----

  /** The response under construction; only its headers are modelled. */
  class Response {
    var headers: map<string, Option<string>>

    constructor ()
      ensures headers == map[]
    {
      headers := map[];
    }

    /** `res.set(name, value)`. */
    method Set(name: string, value: Option<string>)
      modifies this
      ensures headers == old(headers)[name := value]
    {
      headers := headers[name := value];
    }
  }

  /**
   * The rest of the handler chain.  It records how often `next()` was called
   * and, for each call, the response headers the next handler found.
   */
  class Chain {
    var calls: nat
    var seen: seq<map<string, Option<string>>>

    constructor ()
      ensures calls == 0 && seen == []
    {
      calls := 0;
      seen := [];
    }

    /** `next()`: the next handler runs with the response as it stands. */
    method Next(res: Response)
      modifies this
      ensures calls == old(calls) + 1
      ensures seen == old(seen) + [res.headers]
    {
      calls := calls + 1;
      seen := seen + [res.headers];
    }
  }

  /** The handler `Versioning.middleware(options)` returns, with the comparator it consults. */
  class Middleware {
    const options: Options
    const semver: Comparator

    constructor (options: Options, semver: Comparator)
      ensures this.options == options && this.semver == semver
    {
      this.options := options;
      this.semver := semver;
    }

    /**
     * Handles one request: the response's headers become exactly what
     * `Negotiate` says, and `next()` is called once when the request
     * continues and never when it is rejected.  Every header is written
     * before `next()` runs, so the next handler sees the final headers.
     */
    method Handle(req: Request, res: Response, next: Chain) returns (outcome: Outcome)
      modifies res, next
      ensures var d := Negotiate(options, semver, req.Header(options.RequestedHeader()));
        && outcome == d.outcome
        && res.headers == Apply(old(res.headers), d.writes)
        && next.calls == old(next.calls) + (if outcome == Continue then 1 else 0)
        && next.seen == old(next.seen) + (if outcome == Continue then [res.headers] else [])
    {
      ghost var before := res.headers;
      res.Set(options.VersionHeader(), Some(options.current));
      var requested := req.Header(options.RequestedHeader());
      if Truthy(requested) && !semver.valid(requested.value) {
        return Reject(InvalidMessage(requested.value), BadRequest, options.current);
      } else if Truthy(requested) && semver.lt(options.current, requested.value) {
        return Reject(UnsupportedMessage(requested.value), BadRequest, options.current);
      } else if Truthy(requested) && !semver.satisfies(requested.value, options.current) {
        if Truthy(options.minimum) && !semver.gte(requested.value, options.minimum.value) {
          res.Set(options.RecommendedHeader(), options.recommended);
          ApplyPair(before, VersionWrite(options), RecommendedWrite(options));
          return Reject(UnsupportedMessage(requested.value), BadRequest, options.current);
        } else if Truthy(options.recommended) && !semver.gte(requested.value, options.recommended.value) {
          res.Set(options.RecommendedHeader(), options.recommended);
          ApplyPair(before, VersionWrite(options), RecommendedWrite(options));
        }
      }
      next.Next(res);
      outcome := Continue;
    }
  }
}
