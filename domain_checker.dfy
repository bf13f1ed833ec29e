/**
 * The DomainChecker object: its timeout, its queue of names still to check,
 * and the results that the workers record under the lock. The workers run
 * concurrently in the original; here the queue is drained by one sequential
 * loop, each step being the effect of one locked critical section.
 */
module DomainCheck {
  import opened DomainName
  import opened InputLines
  import opened Availability

  /** Upper bound on the per-lookup timeout, in seconds. */
  const MaxTimeout: int := 25

  /** `min(timeout, 25)`: no lower bound, so a negative request passes through. */
  function ClampTimeout(requested: int): (timeout: int)
    ensures timeout <= MaxTimeout
    ensures requested <= MaxTimeout ==> timeout == requested
    ensures requested > MaxTimeout ==> timeout == MaxTimeout
  {
    if requested <= MaxTimeout then requested else MaxTimeout
  }

  /** What opening and reading the input file yields. */
  datatype InputFile =
    | Missing                             // the path does not exist
    | Unreadable(linesRead: seq<string>)  // an exception after these lines were read
    | Readable(lines: seq<string>)        // the whole file, one entry per line

  /** The lines that load_domains gets to see before it stops. */
  function LinesSeen(input: InputFile): seq<string> {
    match input
    case Missing => []
    case Unreadable(linesRead) => linesRead
    case Readable(lines) => lines
  }

  /**
   * End to end: a name ends up among the available ones exactly when some
   * line of the input strips to it, the recogniser accepts it, and its
   * lookup reports it not found.
   */
  lemma AvailableIffListedAndNotFound(lines: seq<string>, lookup: string -> LookupOutcome, d: string)
    ensures d in AvailableAmong(QueuedDomains(lines), lookup) <==>
      && IsValidDomain(d)
      && lookup(d) == NotFound
      && exists k :: 0 <= k < |lines| && Strip(lines[k]) == d
  {
    var queued := QueuedDomains(lines);
    AvailableAmongMultiplicity(queued, lookup, d);
    QueuedIffValidLine(lines, d);
    assert d in queued <==> multiset(queued)[d] > 0;
    assert d in AvailableAmong(queued, lookup) <==> multiset(AvailableAmong(queued, lookup))[d] > 0;
  }

  /** The underscore and the exclamation mark put `bad_domain!` out of the pattern. */
  lemma UnderscoreRejected()
    ensures !IsValidDomain("bad_domain!")
  {
    RejectsForeignCharacter("bad_domain!", 3);
  }

  lemma LineFeedIsBlank()
    ensures ClassifyLine("\n") == Blank
  {
    assert LeadingSpaces("\n") == 1;
    assert "\n"[1..] == [];
  }

  /**
   * The sample run: a registered name, a name nobody registered, a blank line
   * and a rejected word such as `bad_domain!`, each line ending in a line
   * feed. Both names are queued in order, the word draws the one warning, and
   * only the unregistered name is reported available.
   */
  lemma SampleRun(registered: string, unregistered: string, bad: string, lookup: string -> LookupOutcome)
    requires IsValidDomain(registered) && lookup(registered) == Resolved
    requires IsValidDomain(unregistered) && lookup(unregistered) == NotFound
    requires bad != [] && !IsSpace(bad[0]) && !IsSpace(bad[|bad| - 1]) && !IsValidDomain(bad)
    ensures var lines := [registered + "\n", unregistered + "\n", "\n", bad + "\n"];
      && QueuedDomains(lines) == [registered, unregistered]
      && Warnings(lines) == [bad]
      && AvailableAmong(QueuedDomains(lines), lookup) == [unregistered]
  {
    var lines := [registered + "\n", unregistered + "\n", "\n", bad + "\n"];
    assert QueuedDomains(lines) == [registered, unregistered] by {
      assert QueuedFrom(lines[0]) == [registered] by { AcceptedLineQueued(registered); }
      assert QueuedFrom(lines[1]) == [unregistered] by { AcceptedLineQueued(unregistered); }
      assert QueuedFrom(lines[2]) == [] by { LineFeedIsBlank(); }
      assert QueuedFrom(lines[3]) == [] by { RejectedLineSkipped(bad); }
      ConcatMapOfFour(lines, QueuedFrom);
    }
    assert Warnings(lines) == [bad] by {
      assert WarnedFrom(lines[0]) == [] by { AcceptedLineQueued(registered); }
      assert WarnedFrom(lines[1]) == [] by { AcceptedLineQueued(unregistered); }
      assert WarnedFrom(lines[2]) == [] by { LineFeedIsBlank(); }
      assert WarnedFrom(lines[3]) == [bad] by { RejectedLineSkipped(bad); }
      ConcatMapOfFour(lines, WarnedFrom);
    }
    var queued := [registered, unregistered];
    assert AvailableAmong(queued, lookup) == [unregistered] by {
      assert queued[1..][1..] == [];
    }
  }

  class DomainChecker {
    const timeout: int
    var queue: seq<string>
    var availableDomains: seq<string>
    var domainsChecked: nat
    var domainsAvailable: nat

    /** The counter of available names is the length of their list, and never exceeds the checked count. */
    ghost predicate Valid()
      reads this
    {
      domainsAvailable == |availableDomains| <= domainsChecked
    }

    constructor (requestedTimeout: int)
      ensures Valid()
      ensures timeout == ClampTimeout(requestedTimeout)
      ensures queue == [] && availableDomains == []
      ensures domainsChecked == 0 && domainsAvailable == 0
    {
      timeout := ClampTimeout(requestedTimeout);
      queue := [];
      availableDomains := [];
      domainsChecked := 0;
      domainsAvailable := 0;
    }

    /**
     * load_domains: queue every line that strips to an accepted name, in
     * order, and report the stripped lines rejected by the recogniser. It
     * succeeds when the file was read to the end and the queue is not empty.
     */
    method LoadDomains(input: InputFile) returns (ok: bool, warnings: seq<string>)
      modifies this`queue
      ensures queue == old(queue) + QueuedDomains(LinesSeen(input))
      ensures warnings == Warnings(LinesSeen(input))
      ensures ok <==> input.Readable? && queue != []
    {
      if input.Missing? {
        return false, [];
      }
      var lines := LinesSeen(input);
      warnings := [];
      for i := 0 to |lines|
        invariant queue == old(queue) + QueuedDomains(lines[..i])
        invariant warnings == Warnings(lines[..i])
      {
        ghost var queuedBefore, warnedBefore := queue, warnings;
        var domain := Strip(lines[i]);
        if domain != [] && IsValidDomain(domain) {
          queue := queue + [domain];
        } else if domain != [] {
          warnings := warnings + [domain];
        }
        assert queue == queuedBefore + QueuedFrom(lines[i]);
        assert warnings == warnedBefore + WarnedFrom(lines[i]);
        assert QueuedDomains(lines[..i + 1]) == QueuedDomains(lines[..i]) + QueuedFrom(lines[i]) by {
          assert lines[..i + 1] == lines[..i] + [lines[i]];
          ConcatMapSnoc(lines[..i], lines[i], QueuedFrom);
        }
        assert Warnings(lines[..i + 1]) == Warnings(lines[..i]) + WarnedFrom(lines[i]) by {
          assert lines[..i + 1] == lines[..i] + [lines[i]];
          ConcatMapSnoc(lines[..i], lines[i], WarnedFrom);
        }
      }
      assert lines[..|lines|] == lines;
      ok := input.Readable? && |queue| > 0;
    }

    /**
     * The locked block of a worker: count the name as checked and, when it is
     * available, count it and append it to the list of available names.
     */
    method Record(domain: string, isAvailable: bool)
      requires Valid()
      modifies this`domainsChecked, this`domainsAvailable, this`availableDomains
      ensures Valid()
      ensures domainsChecked == old(domainsChecked) + 1
      ensures isAvailable ==> domainsAvailable == old(domainsAvailable) + 1
      ensures isAvailable ==> availableDomains == old(availableDomains) + [domain]
      ensures !isAvailable ==> domainsAvailable == old(domainsAvailable)
      ensures !isAvailable ==> availableDomains == old(availableDomains)
    {
      domainsChecked := domainsChecked + 1;
      if isAvailable {
        domainsAvailable := domainsAvailable + 1;
        availableDomains := availableDomains + [domain];
      }
    }

    /**
     * The workers' loop run by one worker: take each queued name once, in
     * queue order, look it up and record the verdict, until the queue is empty.
     */
    method Drain(lookup: string -> LookupOutcome)
      requires Valid()
      modifies this`queue, this`domainsChecked, this`domainsAvailable, this`availableDomains
      ensures Valid() && queue == []
      ensures domainsChecked == old(domainsChecked) + |old(queue)|
      ensures availableDomains == old(availableDomains) + AvailableAmong(old(queue), lookup)
    {
      ghost var taken: seq<string> := [];
      while queue != []
        invariant Valid()
        invariant old(queue) == taken + queue
        invariant domainsChecked == old(domainsChecked) + |taken|
        invariant availableDomains == old(availableDomains) + AvailableAmong(taken, lookup)
        decreases |queue|
      {
        var domain := queue[0];
        queue := queue[1..];
        var isAvailable := IsAvailable(lookup(domain));
        Record(domain, isAvailable);
        assert AvailableAmong(taken + [domain], lookup)
            == AvailableAmong(taken, lookup) + (if isAvailable then [domain] else []) by {
          AvailableAmongAppend(taken, [domain], lookup);
          assert [domain][1..] == [];
        }
        assert old(queue) == (taken + [domain]) + queue;
        taken := taken + [domain];
      }
      assert taken + queue == taken;
    }

    /**
     * run, without the output file, the threads and the progress log: load
     * the input; on failure stop with the queue as loaded; otherwise drain
     * the queue and succeed.
     */
    method Run(input: InputFile, lookup: string -> LookupOutcome) returns (ok: bool, warnings: seq<string>)
      requires Valid()
      modifies this`queue, this`domainsChecked, this`domainsAvailable, this`availableDomains
      ensures Valid()
      ensures warnings == Warnings(LinesSeen(input))
      ensures ok <==> input.Readable? && old(queue) + QueuedDomains(LinesSeen(input)) != []
      ensures ok ==> queue == []
      ensures ok ==> domainsChecked == old(domainsChecked) + |old(queue) + QueuedDomains(LinesSeen(input))|
      ensures ok ==> availableDomains == old(availableDomains)
                                         + AvailableAmong(old(queue) + QueuedDomains(LinesSeen(input)), lookup)
      ensures !ok ==> queue == old(queue) + QueuedDomains(LinesSeen(input))
      ensures !ok ==> domainsChecked == old(domainsChecked) && availableDomains == old(availableDomains)
    {
      ok, warnings := LoadDomains(input);
      if !ok {
        return;
      }
      Drain(lookup);
    }
  }
}
