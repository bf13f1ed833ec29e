/**
 * The line filter of load_domains: every line of the input file is stripped of
 * surrounding whitespace; an empty result is dropped silently, a result the
 * domain recogniser rejects is dropped with a warning, and every other result
 * is queued, in input order.
 */
module InputLines {
  import opened DomainName

  /** Python's whitespace on ASCII: tab, line feed, vertical tab, form feed,
      carriage return, the four separators 0x1C..0x1F, and space. */
  predicate IsSpace(c: char) {
    c == ' ' || ('\t' <= c <= '\r') || ('\U{1C}' <= c <= '\U{1F}')
  }

  /** How many whitespace characters `s` starts with. */
  function LeadingSpaces(s: string): (n: nat)
    ensures n <= |s|
    ensures forall k :: 0 <= k < n ==> IsSpace(s[k])
    ensures n == |s| || !IsSpace(s[n])
  {
    if s != [] && IsSpace(s[0]) then 1 + LeadingSpaces(s[1..]) else 0
  }

  /** How many whitespace characters `s` ends with. */
  function TrailingSpaces(s: string): (n: nat)
    ensures n <= |s|
    ensures forall k :: |s| - n <= k < |s| ==> IsSpace(s[k])
    ensures n == |s| || !IsSpace(s[|s| - n - 1])
  {
    if s != [] && IsSpace(s[|s| - 1]) then 1 + TrailingSpaces(s[..|s| - 1]) else 0
  }

  /** `line.strip()`: the line without its leading and its trailing whitespace. */
  function Strip(s: string): string {
    var rest := s[LeadingSpaces(s)..];
    rest[..|rest| - TrailingSpaces(rest)]
  }

  /**
   * The stripped line is what is left of `s` after cutting a run of
   * whitespace off each end; it neither starts nor ends with whitespace, and
   * it is empty exactly when `s` is all whitespace.
   */
  lemma StripRemovesOuterWhitespace(s: string)
    ensures var start := LeadingSpaces(s);
      && start + |Strip(s)| <= |s|
      && Strip(s) == s[start..start + |Strip(s)|]
      && (forall k :: 0 <= k < start ==> IsSpace(s[k]))
      && (forall k :: start + |Strip(s)| <= k < |s| ==> IsSpace(s[k]))
    ensures Strip(s) == [] || (!IsSpace(Strip(s)[0]) && !IsSpace(Strip(s)[|Strip(s)| - 1]))
    ensures Strip(s) == [] <==> forall k :: 0 <= k < |s| ==> IsSpace(s[k])
  {
    var start := LeadingSpaces(s);
    var rest := s[start..];
    var r := Strip(s);
    var n := TrailingSpaces(rest);
    assert r == s[start..start + |r|];
    forall k | start + |r| <= k < |s| ensures IsSpace(s[k]) {
      assert s[k] == rest[k - start];
    }
    if r != [] {
      assert r[0] == rest[0] == s[start];
      assert r[|r| - 1] == rest[|rest| - n - 1];
    }
  }

  /** A name the recogniser accepts has no surrounding whitespace to strip. */
  lemma ValidDomainIsStripped(d: string)
    requires IsValidDomain(d)
    ensures Strip(d) == d
  {
    AcceptedShape(d);
    assert !IsSpace(d[0]) && !IsSpace(d[|d| - 1]);
    assert LeadingSpaces(d) == 0;
    assert d[0..] == d;
  }

  /** A line read from a file keeps its line feed; stripping removes it again. */
  lemma StripNewline(s: string)
    requires s != [] && !IsSpace(s[0]) && !IsSpace(s[|s| - 1])
    ensures Strip(s + "\n") == s
  {
    var line := s + "\n";
    assert LeadingSpaces(line) == 0;
    assert line[0..] == line;
    assert line[..|line| - 1] == s;
    assert TrailingSpaces(line) == 1;
  }

  /** What load_domains does with one line. */
  datatype LineVerdict =
    | Blank                  // empty after stripping: dropped silently
    | Skip(text: string)     // rejected: dropped with a warning naming it
    | Enqueue(domain: string)

  function ClassifyLine(line: string): LineVerdict {
    var domain := Strip(line);
    if domain != [] && IsValidDomain(domain) then Enqueue(domain)
    else if domain != [] then Skip(domain)
    else Blank
  }

  /** A line holding an accepted name and its line feed is queued as that name. */
  lemma AcceptedLineQueued(d: string)
    requires IsValidDomain(d)
    ensures ClassifyLine(d + "\n") == Enqueue(d)
  {
    AcceptedShape(d);
    StripNewline(d);
  }

  /** A line holding a rejected word and its line feed is skipped, naming the word. */
  lemma RejectedLineSkipped(t: string)
    requires t != [] && !IsSpace(t[0]) && !IsSpace(t[|t| - 1]) && !IsValidDomain(t)
    ensures ClassifyLine(t + "\n") == Skip(t)
  {
    StripNewline(t);
  }

  /** The per-line results for `lines`, concatenated in input order. */
  function ConcatMap(lines: seq<string>, part: string -> seq<string>): (r: seq<string>)
  {
    if lines == [] then [] else part(lines[0]) + ConcatMap(lines[1..], part)
  }

  lemma {:induction false} ConcatMapAppend(a: seq<string>, b: seq<string>, part: string -> seq<string>)
    ensures ConcatMap(a + b, part) == ConcatMap(a, part) + ConcatMap(b, part)
  {
    if a == [] {
      assert a + b == b;
    } else {
      assert (a + b)[0] == a[0];
      assert (a + b)[1..] == a[1..] + b;
      ConcatMapAppend(a[1..], b, part);
    }
  }

  /** One more line adds its own contribution at the end. */
  lemma ConcatMapSnoc(lines: seq<string>, line: string, part: string -> seq<string>)
    ensures ConcatMap(lines + [line], part) == ConcatMap(lines, part) + part(line)
  {
    ConcatMapAppend(lines, [line], part);
    assert [line][1..] == [];
    assert part(line) + [] == part(line);
  }

  lemma ConcatMapOfFour(lines: seq<string>, part: string -> seq<string>)
    requires |lines| == 4
    ensures ConcatMap(lines, part) == part(lines[0]) + (part(lines[1]) + (part(lines[2]) + part(lines[3])))
  {
    var r1 := lines[1..];
    var r2 := r1[1..];
    var r3 := r2[1..];
    assert r3[0] == lines[3] && r3[1..] == [];
    assert ConcatMap(r3, part) == part(lines[3]) + [];
    assert part(lines[3]) + [] == part(lines[3]);
    assert ConcatMap(r2, part) == part(lines[2]) + ConcatMap(r3, part);
    assert ConcatMap(r1, part) == part(lines[1]) + ConcatMap(r2, part);
  }

  /** A line that contributes nothing can be left out. */
  lemma ConcatMapSkipsEmpty(before: seq<string>, line: string, after: seq<string>, part: string -> seq<string>)
    requires part(line) == []
    ensures ConcatMap(before + [line] + after, part) == ConcatMap(before + after, part)
  {
    ConcatMapAppend(before + [line], after, part);
    ConcatMapAppend(before, [line], part);
    ConcatMapAppend(before, after, part);
    assert [line][1..] == [];
  }

  /** What one line contributes to the queue. */
  function QueuedFrom(line: string): seq<string> {
    match ClassifyLine(line) case Enqueue(d) => [d] case _ => []
  }

  /** What one line contributes to the warnings. */
  function WarnedFrom(line: string): seq<string> {
    match ClassifyLine(line) case Skip(t) => [t] case _ => []
  }

  /** The domains queued for `lines`, in order. */
  function QueuedDomains(lines: seq<string>): seq<string> {
    ConcatMap(lines, QueuedFrom)
  }

  /** The lines reported as invalid, stripped, in order. */
  function Warnings(lines: seq<string>): seq<string> {
    ConcatMap(lines, WarnedFrom)
  }

  /** The number of lines that strip to nothing. */
  function BlankLines(lines: seq<string>): nat {
    if lines == [] then 0
    else (if Strip(lines[0]) == [] then 1 else 0) + BlankLines(lines[1..])
  }

  /** Every line is queued, warned about or blank, and exactly one of these. */
  lemma {:induction false} EveryLineAccountedFor(lines: seq<string>)
    ensures |QueuedDomains(lines)| + |Warnings(lines)| + BlankLines(lines) == |lines|
  {
    if lines != [] {
      EveryLineAccountedFor(lines[1..]);
    }
  }

  /**
   * A name is queued exactly when the recogniser accepts it and some line
   * strips to it.
   */
  lemma {:induction false} QueuedIffValidLine(lines: seq<string>, d: string)
    ensures d in QueuedDomains(lines) <==>
      IsValidDomain(d) && exists k :: 0 <= k < |lines| && Strip(lines[k]) == d
  {
    if lines != [] {
      QueuedIffValidLine(lines[1..], d);
      assert QueuedDomains(lines) == QueuedFrom(lines[0]) + QueuedDomains(lines[1..]);
      if IsValidDomain(d) && exists k :: 0 <= k < |lines| && Strip(lines[k]) == d {
        var k :| 0 <= k < |lines| && Strip(lines[k]) == d;
        if k > 0 {
          assert lines[1..][k - 1] == lines[k];
        } else {
          AcceptedShape(d);
          assert QueuedFrom(lines[0]) == [d];
        }
      }
      if d in QueuedDomains(lines[1..]) {
        var k :| 0 <= k < |lines| - 1 && Strip(lines[1..][k]) == d;
        assert lines[k + 1] == lines[1..][k];
      }
    }
  }

  /** Stripping twice strips nothing more. */
  lemma StripIdempotent(s: string)
    ensures Strip(Strip(s)) == Strip(s)
  {
    var r := Strip(s);
    StripRemovesOuterWhitespace(s);
    if r != [] {
      assert LeadingSpaces(r) == 0;
      assert r[0..] == r;
      assert TrailingSpaces(r) == 0;
    }
  }

  /** Every queued name is accepted by the recogniser and already stripped. */
  lemma QueuedAreValid(lines: seq<string>)
    ensures forall d :: d in QueuedDomains(lines) ==> IsValidDomain(d) && Strip(d) == d
  {
    forall d | d in QueuedDomains(lines) ensures IsValidDomain(d) && Strip(d) == d {
      QueuedIffValidLine(lines, d);
      ValidDomainIsStripped(d);
    }
  }

  /** Every warning names a non-empty, stripped line that the recogniser rejects. */
  lemma {:induction false} WarningsAreRejected(lines: seq<string>)
    ensures forall w :: w in Warnings(lines) ==> w != [] && Strip(w) == w && !IsValidDomain(w)
  {
    if lines != [] {
      WarningsAreRejected(lines[1..]);
      assert Warnings(lines) == WarnedFrom(lines[0]) + Warnings(lines[1..]);
      StripIdempotent(lines[0]);
    }
  }

  /**
   * A word is warned about exactly when it is non-empty, the recogniser
   * rejects it, and some line strips to it.
   */
  lemma {:induction false} WarnedIffRejectedLine(lines: seq<string>, w: string)
    ensures w in Warnings(lines) <==>
      w != [] && !IsValidDomain(w) && exists k :: 0 <= k < |lines| && Strip(lines[k]) == w
  {
    if lines != [] {
      WarnedIffRejectedLine(lines[1..], w);
      assert Warnings(lines) == WarnedFrom(lines[0]) + Warnings(lines[1..]);
      if w != [] && !IsValidDomain(w) && exists k :: 0 <= k < |lines| && Strip(lines[k]) == w {
        var k :| 0 <= k < |lines| && Strip(lines[k]) == w;
        if k > 0 {
          assert lines[1..][k - 1] == lines[k];
        } else {
          assert WarnedFrom(lines[0]) == [w];
        }
      }
      if w in WarnedFrom(lines[0]) {
        assert Strip(lines[0]) == w;
      }
      if w in Warnings(lines[1..]) {
        var k :| 0 <= k < |lines| - 1 && Strip(lines[1..][k]) == w;
        assert lines[k + 1] == lines[1..][k];
      }
    }
  }

  /** A line that strips to nothing, anywhere in the input, changes neither result. */
  lemma BlankLineIgnored(before: seq<string>, blank: string, after: seq<string>)
    requires Strip(blank) == []
    ensures QueuedDomains(before + [blank] + after) == QueuedDomains(before + after)
    ensures Warnings(before + [blank] + after) == Warnings(before + after)
  {
    assert QueuedFrom(blank) == [] && WarnedFrom(blank) == [];
    ConcatMapSkipsEmpty(before, blank, after, QueuedFrom);
    ConcatMapSkipsEmpty(before, blank, after, WarnedFrom);
  }

  /** Some name is queued exactly when some line strips to a name the recogniser accepts. */
  lemma SomeQueuedIffSomeValidLine(lines: seq<string>)
    ensures QueuedDomains(lines) != [] <==> exists k :: 0 <= k < |lines| && IsValidDomain(Strip(lines[k]))
  {
    var q := QueuedDomains(lines);
    if q != [] {
      QueuedIffValidLine(lines, q[0]);
    }
    if exists k :: 0 <= k < |lines| && IsValidDomain(Strip(lines[k])) {
      var k :| 0 <= k < |lines| && IsValidDomain(Strip(lines[k]));
      QueuedIffValidLine(lines, Strip(lines[k]));
    }
  }
}
