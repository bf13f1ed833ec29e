/**
 * check_domain_availability: how the end of one resolver call is turned into
 * the "available" verdict. The resolver itself is not modelled; its result is
 * one of the four outcomes below. The verdict is a heuristic about DNS, not a
 * statement about registration.
 */
module Availability {

  /** How the resolver call for one name ended. */
  datatype LookupOutcome =
    | Resolved                     // an address came back
    | NotFound                     // the resolver raised socket.gaierror
    | TimedOut                     // the resolver raised socket.timeout
    | OtherError(message: string)  // any other exception

  /** True only for a name the resolver reports as not found. */
  function IsAvailable(outcome: LookupOutcome): (available: bool)
    ensures available <==> outcome == NotFound
  {
    match outcome
    case Resolved => false
    case NotFound => true
    case TimedOut => false
    case OtherError(_) => false
  }

  /** Whether the check logs a warning: on a timeout and on any other error. */
  function LogsWarning(outcome: LookupOutcome): bool {
    outcome.TimedOut? || outcome.OtherError?
  }

  /**
   * The outcomes split three ways: a resolved name is taken, a not-found name
   * is available, and an outcome that draws a warning is never reported as
   * available.
   */
  lemma VerdictCases(outcome: LookupOutcome)
    ensures outcome.Resolved? ==> !IsAvailable(outcome) && !LogsWarning(outcome)
    ensures LogsWarning(outcome) ==> !IsAvailable(outcome)
    ensures IsAvailable(outcome) <==> !outcome.Resolved? && !LogsWarning(outcome)
  {
  }

  /** The names, in order, whose lookup reports them not found. */
  function AvailableAmong(domains: seq<string>, lookup: string -> LookupOutcome): (found: seq<string>)
    ensures |found| <= |domains|
    ensures forall k :: 0 <= k < |found| ==> found[k] in domains && lookup(found[k]) == NotFound
  {
    if domains == [] then []
    else (if IsAvailable(lookup(domains[0])) then [domains[0]] else []) + AvailableAmong(domains[1..], lookup)
  }

  lemma {:induction false} AvailableAmongAppend(a: seq<string>, b: seq<string>, lookup: string -> LookupOutcome)
    ensures AvailableAmong(a + b, lookup) == AvailableAmong(a, lookup) + AvailableAmong(b, lookup)
  {
    if a == [] {
      assert a + b == b;
    } else {
      assert (a + b)[0] == a[0];
      assert (a + b)[1..] == a[1..] + b;
      AvailableAmongAppend(a[1..], b, lookup);
    }
  }

  /**
   * A name occurs among the available ones exactly as often as it occurs in
   * the input when it is not found, and not at all otherwise; so with no
   * duplicate input every available name is listed exactly once.
   */
  lemma {:induction false} AvailableAmongMultiplicity(domains: seq<string>, lookup: string -> LookupOutcome, d: string)
    ensures multiset(AvailableAmong(domains, lookup))[d] ==
      if lookup(d) == NotFound then multiset(domains)[d] else 0
  {
    if domains != [] {
      AvailableAmongMultiplicity(domains[1..], lookup, d);
      assert domains == [domains[0]] + domains[1..];
      assert multiset(domains) == multiset([domains[0]]) + multiset(domains[1..]);
    }
  }
}
