/**
 * The semantic-version comparator the middleware consults.  The library
 * itself is not part of this model: it enters as a value holding its four
 * entry points, and `Lawful` states the few facts about them that the
 * middleware's behaviour depends on.
 */
module Semver {

  /** The four calls the middleware makes: `valid`, `lt`, `gte` and `satisfies`. */
  datatype Comparator = Comparator(
    valid: string -> bool,
    lt: (string, string) -> bool,
    gte: (string, string) -> bool,
    satisfies: (string, string) -> bool)

  /**
   * On valid versions `lt` is a strict order, `gte` is its complement, and
   * every version satisfies itself used as a range.
   */
  ghost predicate Lawful(c: Comparator) {
    && (forall a :: c.valid(a) ==> !c.lt(a, a))
    && (forall a, b :: c.valid(a) && c.valid(b) && c.lt(a, b) ==> !c.lt(b, a))
    && (forall a, b, d :: c.valid(a) && c.valid(b) && c.valid(d) && c.lt(a, b) && c.lt(b, d) ==> c.lt(a, d))
    && (forall a, b :: c.valid(a) && c.valid(b) ==> (c.gte(a, b) <==> !c.lt(a, b)))
    && (forall a :: c.valid(a) ==> c.satisfies(a, a))
  }
}
