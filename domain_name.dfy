/**
 * The domain-name recogniser of the checker (DOMAIN_REGEX and is_valid_domain).
 *
 * The pattern is anchored at both ends and reads
 *   (LABEL '.')+ FINAL
 * where LABEL is one ASCII letter or digit, optionally followed by up to 61
 * letters, digits or hyphens and one more letter or digit (1 to 63 characters),
 * and FINAL is a letter or digit, up to 61 letters, digits or hyphens, and a
 * letter or digit (2 to 63 characters). No label contains a dot, so a matching
 * string is cut into its labels by splitting it at every dot; IsValidDomain
 * checks the labels obtained that way, and MatchesPattern is the pattern's own
 * reading (some list of labels, joined with dots, spells the string). The two
 * are proved to agree.
 */
module DomainName {

  /** Longest label the pattern admits: one character, {0,61}, one character. */
  const MaxLabelLength: nat := 63

  /** `[a-zA-Z0-9]`: ASCII only. */
  predicate IsAsciiAlnum(c: char) {
    ('a' <= c <= 'z') || ('A' <= c <= 'Z') || ('0' <= c <= '9')
  }

  /** `[a-zA-Z0-9-]` */
  predicate IsLabelChar(c: char) {
    IsAsciiAlnum(c) || c == '-'
  }

  /** Where the first dot of `s` is, or |s| when there is none. */
  function DotIndex(s: string): (i: nat)
    ensures i <= |s|
    ensures i < |s| ==> s[i] == '.'
  {
    if s == [] || s[0] == '.' then 0 else 1 + DotIndex(s[1..])
  }

  /** No character before the index DotIndex finds is a dot, so it finds the first one. */
  lemma {:induction false} NoDotBeforeDotIndex(s: string)
    ensures forall k :: 0 <= k < DotIndex(s) ==> s[k] != '.'
  {
    if s != [] && s[0] != '.' {
      NoDotBeforeDotIndex(s[1..]);
      forall k | 0 < k < DotIndex(s) ensures s[k] != '.' {
        assert s[k] == s[1..][k - 1];
      }
    }
  }

  /** The pieces of `s` between dots, in order (as Python's `s.split('.')`). */
  function Split(s: string): (parts: seq<string>)
    ensures |parts| >= 1
    decreases |s|
  {
    var i := DotIndex(s);
    if i == |s| then [s] else [s[..i]] + Split(s[i + 1..])
  }

  /** The labels written one after the other with a dot between neighbours. */
  function Join(labels: seq<string>): string
    requires |labels| >= 1
  {
    if |labels| == 1 then labels[0] else labels[0] + "." + Join(labels[1..])
  }

  /**
   * One label of the pattern: `[a-zA-Z0-9](?:[a-zA-Z0-9-]{0,61}[a-zA-Z0-9])?`
   * when minLength is 1, `[a-zA-Z0-9][a-zA-Z0-9-]{0,61}[a-zA-Z0-9]` when it is 2.
   */
  predicate IsLabel(l: string, minLength: nat) {
    && 1 <= minLength <= |l| <= MaxLabelLength
    && (forall k :: 0 <= k < |l| ==> IsLabelChar(l[k]))
    && IsAsciiAlnum(l[0])
    && IsAsciiAlnum(l[|l| - 1])
  }

  /** At least two labels; every label but the last has 1..63 characters, the last 2..63. */
  predicate WellFormedLabels(labels: seq<string>) {
    && |labels| >= 2
    && (forall k :: 0 <= k < |labels| - 1 ==> IsLabel(labels[k], 1))
    && IsLabel(labels[|labels| - 1], 2)
  }

  /** is_valid_domain: the string, cut at its dots, is a well-formed list of labels. */
  predicate IsValidDomain(s: string) {
    WellFormedLabels(Split(s))
  }

  /** The pattern read generatively: some well-formed list of labels, joined by dots, is `s`. */
  ghost predicate MatchesPattern(s: string) {
    exists labels :: WellFormedLabels(labels) && Join(labels) == s
  }

  // ---------------------------------------------------------------------------
  // Split and Join are inverse to each other

  /** The first dot of a dot-free string followed by a dot is that dot. */
  lemma DotIndexAfterDotFree(l: string, r: string)
    requires '.' !in l
    ensures DotIndex(l) == |l|
    ensures DotIndex(l + "." + r) == |l|
  {
    var s := l + "." + r;
    assert s[|l|] == '.';
    NoDotBeforeDotIndex(l);
    NoDotBeforeDotIndex(s);
    forall k | 0 <= k < |l| ensures s[k] != '.' && l[k] != '.' {
      assert s[k] == l[k] && l[k] in l;
    }
  }

  /** The split of a dot-free string is that string alone. */
  lemma SplitDotFree(l: string)
    requires '.' !in l
    ensures Split(l) == [l]
  {
    DotIndexAfterDotFree(l, "");
  }

  /** A dot-free string followed by a dot is the first piece. */
  lemma SplitDotFreeThenDot(l: string, r: string)
    requires '.' !in l
    ensures Split(l + "." + r) == [l] + Split(r)
  {
    var s := l + "." + r;
    DotIndexAfterDotFree(l, r);
    assert s[..|l|] == l;
    assert s[|l| + 1..] == r;
  }

  lemma {:induction false} JoinSplit(s: string)
    ensures Join(Split(s)) == s
    decreases |s|
  {
    var i := DotIndex(s);
    if i < |s| {
      var rest := Split(s[i + 1..]);
      JoinSplit(s[i + 1..]);
      assert Split(s) == [s[..i]] + rest;
      assert ([s[..i]] + rest)[1..] == rest;
      assert Join(Split(s)) == s[..i] + "." + Join(rest);
      assert s == s[..i] + "." + s[i + 1..];
    }
  }

  /** What comes before the first dot holds no dot. */
  lemma BeforeFirstDotIsDotFree(s: string)
    ensures '.' !in s[..DotIndex(s)]
  {
    var i := DotIndex(s);
    NoDotBeforeDotIndex(s);
    forall k | 0 <= k < i ensures s[..i][k] != '.' { }
  }

  /** No piece of a split contains a dot. */
  lemma {:induction false} SplitPiecesDotFree(s: string)
    ensures forall k :: 0 <= k < |Split(s)| ==> '.' !in Split(s)[k]
    decreases |s|
  {
    var i := DotIndex(s);
    BeforeFirstDotIsDotFree(s);
    if i < |s| {
      SplitPiecesDotFree(s[i + 1..]);
    } else {
      assert s[..i] == s;
    }
  }

  /** Joining two non-empty lists of labels is joining each and putting a dot between. */
  lemma {:induction false} JoinAppend(x: seq<string>, y: seq<string>)
    requires |x| >= 1 && |y| >= 1
    ensures Join(x + y) == Join(x) + "." + Join(y)
  {
    assert (x + y)[0] == x[0];
    if |x| == 1 {
      assert (x + y)[1..] == y;
    } else {
      assert (x + y)[1..] == x[1..] + y;
      JoinAppend(x[1..], y);
    }
  }

  /** Splitting at a dot splits the two sides independently. */
  lemma SplitAtDot(a: string, b: string)
    ensures Split(a + "." + b) == Split(a) + Split(b)
  {
    var pa, pb := Split(a), Split(b);
    assert a + "." + b == Join(pa + pb) by {
      JoinSplit(a);
      JoinSplit(b);
      JoinAppend(pa, pb);
    }
    assert forall k :: 0 <= k < |pa + pb| ==> '.' !in (pa + pb)[k] by {
      SplitPiecesDotFree(a);
      SplitPiecesDotFree(b);
      forall k | 0 <= k < |pa + pb| ensures '.' !in (pa + pb)[k] {
        if k >= |pa| {
          assert (pa + pb)[k] == pb[k - |pa|];
        }
      }
    }
    SplitJoin(pa + pb);
  }

  lemma {:induction false} SplitJoin(labels: seq<string>)
    requires |labels| >= 1
    requires forall k :: 0 <= k < |labels| ==> '.' !in labels[k]
    ensures Split(Join(labels)) == labels
  {
    if |labels| == 1 {
      SplitDotFree(labels[0]);
    } else {
      SplitJoin(labels[1..]);
      SplitDotFreeThenDot(labels[0], Join(labels[1..]));
      assert labels == [labels[0]] + labels[1..];
    }
  }

  lemma LabelIsDotFree(l: string, minLength: nat)
    requires IsLabel(l, minLength)
    ensures '.' !in l
  {
    forall k | 0 <= k < |l| ensures l[k] != '.' {
      assert IsLabelChar(l[k]);
    }
  }

  /** The label check and the pattern accept the same strings. */
  lemma ValidIffMatchesPattern(s: string)
    ensures IsValidDomain(s) <==> MatchesPattern(s)
  {
    if IsValidDomain(s) {
      JoinSplit(s);
      assert WellFormedLabels(Split(s)) && Join(Split(s)) == s;
    }
    if MatchesPattern(s) {
      var labels :| WellFormedLabels(labels) && Join(labels) == s;
      forall k | 0 <= k < |labels| ensures '.' !in labels[k] {
        if k < |labels| - 1 {
          LabelIsDotFree(labels[k], 1);
        } else {
          LabelIsDotFree(labels[k], 2);
        }
      }
      SplitJoin(labels);
    }
  }

  // ---------------------------------------------------------------------------
  // What an accepted string looks like, character by character

  /**
   * Only letters, digits, hyphens and dots; the first and last characters are
   * letters or digits; both neighbours of every dot are letters or digits.
   */
  predicate CharacterShape(s: string) {
    && |s| >= 1
    && IsAsciiAlnum(s[0])
    && IsAsciiAlnum(s[|s| - 1])
    && (forall k :: 0 <= k < |s| ==> IsLabelChar(s[k]) || s[k] == '.')
    && (forall k :: 0 < k < |s| ==> s[k] == '.' ==> IsAsciiAlnum(s[k - 1]))
    && (forall k :: 0 <= k < |s| - 1 ==> s[k] == '.' ==> IsAsciiAlnum(s[k + 1]))
  }

  lemma {:induction false} JoinShape(labels: seq<string>)
    requires |labels| >= 1
    requires forall k :: 0 <= k < |labels| ==> IsLabel(labels[k], 1)
    ensures CharacterShape(Join(labels))
  {
    var l := labels[0];
    LabelIsDotFree(l, 1);
    if |labels| > 1 {
      JoinShape(labels[1..]);
      var j := Join(labels[1..]);
      var s := l + "." + j;
      assert Join(labels) == s;
      forall k | 0 <= k < |s| ensures IsLabelChar(s[k]) || s[k] == '.' {
        if k < |l| {
          assert s[k] == l[k];
        } else if k > |l| {
          assert s[k] == j[k - |l| - 1];
        }
      }
      forall k | 0 < k < |s| ensures s[k] == '.' ==> IsAsciiAlnum(s[k - 1]) {
        if k < |l| {
          assert s[k] == l[k];
        } else if k == |l| {
          assert s[k - 1] == l[|l| - 1];
        } else if k == |l| + 1 {
          assert s[k] == j[0];
        } else {
          assert s[k] == j[k - |l| - 1] && s[k - 1] == j[k - |l| - 2];
        }
      }
      forall k | 0 <= k < |s| - 1 ensures s[k] == '.' ==> IsAsciiAlnum(s[k + 1]) {
        if k < |l| - 1 {
          assert s[k] == l[k];
        } else if k == |l| - 1 {
          assert s[k] == l[|l| - 1];
        } else if k == |l| {
          assert s[k + 1] == j[0];
        } else {
          assert s[k] == j[k - |l| - 1] && s[k + 1] == j[k - |l|];
        }
      }
      assert s[0] == l[0];
      assert s[|s| - 1] == j[|j| - 1];
    } else {
      forall k | 0 < k < |l| ensures l[k] == '.' ==> IsAsciiAlnum(l[k - 1]) {
        assert l[k] in l;
      }
      forall k | 0 <= k < |l| - 1 ensures l[k] == '.' ==> IsAsciiAlnum(l[k + 1]) {
        assert l[k] in l;
      }
    }
  }

  /**
   * Every accepted string has a dot, starts and ends with a letter or digit,
   * uses only `[A-Za-z0-9.-]`, and has a letter or digit on both sides of every
   * dot; hence a hyphen is never first or last in its label.
   */
  lemma AcceptedShape(s: string)
    requires IsValidDomain(s)
    ensures CharacterShape(s)
    ensures '.' in s
    ensures |s| >= 4
    ensures forall k :: 0 <= k < |s| ==> s[k] == '-' ==> 0 < k < |s| - 1 && s[k - 1] != '.' && s[k + 1] != '.'
  {
    AcceptedCharacterShape(s);
    AcceptedLength(s);
    HyphenInside(s);
  }

  lemma AcceptedCharacterShape(s: string)
    requires IsValidDomain(s)
    ensures CharacterShape(s)
  {
    var labels := Split(s);
    JoinSplit(s);
    assert forall k :: 0 <= k < |labels| ==> IsLabel(labels[k], 1);
    JoinShape(labels);
  }

  lemma AcceptedLength(s: string)
    requires IsValidDomain(s)
    ensures '.' in s && |s| >= 4
  {
    var labels := Split(s);
    assert s == labels[0] + "." + Join(labels[1..]) by {
      JoinSplit(s);
    }
    assert s[|labels[0]|] == '.';
    assert |Join(labels[1..])| >= 2 by {
      LastLabelLength(labels[1..]);
    }
  }

  /** With letters or digits at both ends and around every dot, a hyphen has neither a dot nor an end beside it. */
  lemma HyphenInside(s: string)
    requires CharacterShape(s)
    ensures forall k :: 0 <= k < |s| ==> s[k] == '-' ==> 0 < k < |s| - 1 && s[k - 1] != '.' && s[k + 1] != '.'
  {
    forall k | 0 <= k < |s|
      ensures s[k] == '-' ==> 0 < k < |s| - 1 && s[k - 1] != '.' && s[k + 1] != '.'
    {
      if s[k] == '-' && 0 < k < |s| - 1 {
        assert s[k - 1] == '.' ==> IsAsciiAlnum(s[k]);
        assert s[k + 1] == '.' ==> IsAsciiAlnum(s[k]);
      }
    }
  }

  lemma {:induction false} LastLabelLength(labels: seq<string>)
    requires |labels| >= 1
    ensures |Join(labels)| >= |labels[|labels| - 1]|
  {
    if |labels| > 1 {
      LastLabelLength(labels[1..]);
    }
  }

  /** Every label of an accepted string starts and ends with a letter or digit, so a hyphen is interior. */
  lemma AcceptedLabels(s: string)
    requires IsValidDomain(s)
    ensures forall l :: l in Split(s) ==>
      1 <= |l| <= MaxLabelLength && IsAsciiAlnum(l[0]) && IsAsciiAlnum(l[|l| - 1])
      && forall k :: 0 <= k < |l| && l[k] == '-' ==> 0 < k < |l| - 1
    ensures 2 <= |Split(s)[|Split(s)| - 1]|
  {
    var parts := Split(s);
    forall l | l in parts
      ensures 1 <= |l| <= MaxLabelLength && IsAsciiAlnum(l[0]) && IsAsciiAlnum(l[|l| - 1])
      ensures forall k :: 0 <= k < |l| && l[k] == '-' ==> 0 < k < |l| - 1
    {
      var i :| 0 <= i < |parts| && parts[i] == l;
      if i < |parts| - 1 {
        assert IsLabel(parts[i], 1);
      } else {
        assert IsLabel(parts[i], 2);
      }
    }
  }

  // ---------------------------------------------------------------------------
  // What is rejected

  /** A single label such as `localhost` is never accepted. */
  lemma RejectsWithoutDot(s: string)
    requires '.' !in s
    ensures !IsValidDomain(s)
  {
    SplitDotFree(s);
  }

  lemma RejectsEmpty()
    ensures !IsValidDomain("")
  {
    RejectsWithoutDot("");
  }

  /** A leading dot, a trailing dot or two dots in a row leave an empty label. */
  lemma RejectsMisplacedDots(s: string)
    ensures |s| > 0 && s[0] == '.' ==> !IsValidDomain(s)
    ensures |s| > 0 && s[|s| - 1] == '.' ==> !IsValidDomain(s)
    ensures forall k :: 0 <= k < |s| - 1 && s[k] == '.' && s[k + 1] == '.' ==> !IsValidDomain(s)
  {
    if IsValidDomain(s) {
      AcceptedShape(s);
    }
  }

  /** Any character outside `[A-Za-z0-9.-]` is rejected. */
  lemma RejectsForeignCharacter(s: string, k: nat)
    requires k < |s| && !IsLabelChar(s[k]) && s[k] != '.'
    ensures !IsValidDomain(s)
  {
    if IsValidDomain(s) {
      AcceptedShape(s);
    }
  }

  /** A piece longer than 63 characters makes the whole string invalid. */
  lemma RejectsLongPiece(s: string, j: nat)
    requires j < |Split(s)| && |Split(s)[j]| > MaxLabelLength
    ensures !IsValidDomain(s)
  {
    var parts := Split(s);
    if j < |parts| - 1 {
      assert !IsLabel(parts[j], 1);
    } else {
      assert !IsLabel(parts[j], 2);
    }
  }

  /** Where a dot-free string stands among the pieces, in front, at the end or in between. */
  lemma PieceAtFront(l: string, r: string)
    requires '.' !in l
    ensures Split(l + "." + r)[0] == l
  {
    SplitDotFreeThenDot(l, r);
  }

  lemma PieceAtEnd(r: string, l: string)
    requires '.' !in l
    ensures |Split(r)| < |Split(r + "." + l)| && Split(r + "." + l)[|Split(r)|] == l
  {
    SplitAtDot(r, l);
    SplitDotFree(l);
  }

  lemma PieceBetween(r: string, l: string, t: string)
    requires '.' !in l
    ensures |Split(r)| < |Split(r + "." + l + "." + t)| && Split(r + "." + l + "." + t)[|Split(r)|] == l
  {
    assert r + "." + (l + "." + t) == r + "." + l + "." + t;
    SplitAtDot(r, l + "." + t);
    SplitDotFreeThenDot(l, t);
  }

  /** A label of more than 63 characters is rejected wherever it stands. */
  lemma RejectsOverlongLabel(l: string, r: string, t: string)
    requires '.' !in l && |l| > MaxLabelLength
    ensures !IsValidDomain(l + "." + r)
    ensures !IsValidDomain(r + "." + l)
    ensures !IsValidDomain(r + "." + l + "." + t)
  {
    PieceAtFront(l, r);
    RejectsLongPiece(l + "." + r, 0);
    PieceAtEnd(r, l);
    RejectsLongPiece(r + "." + l, |Split(r)|);
    PieceBetween(r, l, t);
    RejectsLongPiece(r + "." + l + "." + t, |Split(r)|);
  }

  /** Nothing bounds the total length: one more valid label in front keeps a name valid. */
  lemma PrependLabel(l: string, s: string)
    requires IsLabel(l, 1) && IsValidDomain(s)
    ensures IsValidDomain(l + "." + s)
  {
    LabelIsDotFree(l, 1);
    SplitDotFreeThenDot(l, s);
    var parts := Split(l + "." + s);
    assert parts == [l] + Split(s);
    forall k | 0 <= k < |parts| - 1 ensures IsLabel(parts[k], 1) {
      if k > 0 {
        assert parts[k] == Split(s)[k - 1];
      }
    }
  }

  /** The shortest final label the pattern admits has two characters. */
  lemma TwoCharacterFinalLabel()
    ensures IsValidDomain("a.bc")
  {
    SplitDotFree("bc");
    SplitDotFreeThenDot("a", "bc");
    assert "a" + "." + "bc" == "a.bc";
    assert Split("a.bc") == ["a", "bc"];
  }

  lemma OneCharacterFinalLabel()
    ensures !IsValidDomain("a.b")
  {
    SplitDotFree("b");
    SplitDotFreeThenDot("a", "b");
    assert "a" + "." + "b" == "a.b";
    assert Split("a.b") == ["a", "b"];
  }
}
