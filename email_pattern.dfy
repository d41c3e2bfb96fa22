/**
 * The contact form's email test, the regular expression
 * `^[^\s@]+@[^\s@]+\.[^\s@]+$` applied to the untrimmed value.
 *
 * `Pattern` is the language of the expression written out: a local part, `@`,
 * a domain part, `.`, a top-level part, each one or more characters that are
 * neither whitespace nor `@`. `Matches` decides it in one left-to-right pass
 * (the automaton a regular-expression engine builds for it), and
 * `MatchesIffPattern` proves the two agree on every string.
 */
module EmailPattern {
  import opened Text

  /** A character of the class `[^\s@]`. */
  predicate IsPartChar(c: char) {
    !IsSpace(c) && c != '@'
  }

  predicate AllPart(s: string) {
    forall k :: 0 <= k < |s| ==> IsPartChar(s[k])
  }

  /** The subpattern `[^\s@]+`. */
  predicate Part(s: string) {
    |s| > 0 && AllPart(s)
  }

  /** `s` splits at `@` (index i) and `.` (index j) into three parts. */
  ghost predicate SplitAt(s: string, i: int, j: int) {
    0 < i && i + 1 < j && j + 1 < |s| && s[i] == '@' && s[j] == '.'
    && Part(s[..i]) && Part(s[i + 1..j]) && Part(s[j + 1..])
  }

  /** The whole-string match of the expression. */
  ghost predicate Pattern(s: string) {
    exists i, j :: SplitAt(s, i, j)
  }

  /** The states of the matcher, named after what it has read so far. */
  datatype State =
    | Start    // nothing
    | Local    // one or more local-part characters
    | AfterAt  // the local part and `@`
    | Domain   // a non-empty start of the domain part, no usable `.` yet
    | Dot      // as Domain, ending in a `.` that could end the domain part
    | Accept   // a complete address, possibly still growing its last part
    | Reject

  function Step(q: State, c: char): State {
    if !IsPartChar(c) then
      if c == '@' && q == Local then AfterAt else Reject
    else
      match q
      case Start => Local
      case Local => Local
      case AfterAt => Domain
      case Domain => if c == '.' then Dot else Domain
      case Dot => Accept
      case Accept => Accept
      case Reject => Reject
  }

  function Run(q: State, s: string): State
    decreases |s|
  {
    if s == [] then q else Run(Step(q, s[0]), s[1..])
  }

  /** `/^[^\s@]+@[^\s@]+\.[^\s@]+$/.test(s)`. */
  function Matches(s: string): (b: bool)
    ensures b <==> Pattern(s)
  {
    MatchesIffPattern(s);
    Run(Start, s) == Accept
  }

  /** t is `a@b.d` with a made of part characters (possibly empty) and
      b, d parts; `@` at index i, `.` at index j. */
  ghost predicate LocalSplit(t: string, i: int, j: int) {
    0 <= i && i + 1 < j && j + 1 < |t| && t[i] == '@' && t[j] == '.'
    && AllPart(t[..i]) && Part(t[i + 1..j]) && Part(t[j + 1..])
  }

  /** t is `b.d` with b made of part characters (possibly empty) and d a
      part; `.` at index j. */
  ghost predicate DomainSplit(t: string, j: int) {
    0 <= j && j + 1 < |t| && t[j] == '.' && AllPart(t[..j]) && Part(t[j + 1..])
  }

  /** The strings the matcher accepts from state q. */
  ghost predicate Lang(q: State, t: string) {
    match q
    case Start => Pattern(t)
    case Local => exists i, j :: LocalSplit(t, i, j)
    case AfterAt => exists j :: 0 < j && DomainSplit(t, j)
    case Domain => exists j :: DomainSplit(t, j)
    case Dot => Part(t)
    case Accept => AllPart(t)
    case Reject => false
  }

  lemma LangEmpty(q: State)
    ensures Lang(q, []) <==> q == Accept
  {
  }

  lemma AllPartCons(c: char, t: string)
    ensures AllPart([c] + t) <==> IsPartChar(c) && AllPart(t)
  {
    var s := [c] + t;
    assert s[0] == c;
    assert forall k :: 0 <= k < |t| ==> s[k + 1] == t[k];
  }

  lemma SliceCons(c: char, t: string, a: int, b: int)
    requires 0 <= a <= b <= |t|
    ensures ([c] + t)[a + 1..b + 1] == t[a..b]
    ensures ([c] + t)[..a + 1] == [c] + t[..a]
    ensures ([c] + t)[a + 1..] == t[a..]
  {
  }

  lemma ShiftDomain(c: char, t: string, j: int)
    requires 0 <= j
    ensures DomainSplit([c] + t, j + 1) <==> IsPartChar(c) && DomainSplit(t, j)
  {
    if j + 1 < |t| {
      SliceCons(c, t, j, j);
      SliceCons(c, t, j + 1, j + 1);
      AllPartCons(c, t[..j]);
    }
  }

  lemma ShiftLocal(c: char, t: string, i: int, j: int)
    requires 0 <= i
    ensures LocalSplit([c] + t, i + 1, j + 1) <==> IsPartChar(c) && LocalSplit(t, i, j)
  {
    if i + 1 < j && j + 1 < |t| {
      SliceCons(c, t, i, i);
      SliceCons(c, t, i + 1, j);
      SliceCons(c, t, j + 1, j + 1);
      AllPartCons(c, t[..i]);
    }
  }

  lemma LocalAtZero(c: char, t: string, j: int)
    requires 0 <= j
    ensures LocalSplit([c] + t, 0, j + 1) <==> c == '@' && 0 < j && DomainSplit(t, j)
  {
    var s := [c] + t;
    if 0 < j && j + 1 < |t| {
      SliceCons(c, t, 0, j);
      SliceCons(c, t, j + 1, j + 1);
      assert s[..0] == [];
    }
  }

  lemma DomainAtZero(c: char, t: string)
    ensures DomainSplit([c] + t, 0) <==> c == '.' && Part(t)
  {
    var s := [c] + t;
    assert s[..0] == [] && s[1..] == t;
  }

  lemma SplitIsLocal(s: string, i: int, j: int)
    ensures SplitAt(s, i, j) <==> 0 < i && LocalSplit(s, i, j)
  {
  }

  /** Reading one character moves between the languages of the states. */
  lemma StepLang(q: State, c: char, t: string)
    ensures Lang(q, [c] + t) <==> Lang(Step(q, c), t)
  {
    var s := [c] + t;
    match q
    case Start => StepStart(c, t);
    case Local => StepLocal(c, t);
    case AfterAt => StepAfterAt(c, t);
    case Domain => StepDomain(c, t);
    case Dot =>
      assert s[0] == c;
      AllPartCons(c, t);
    case Accept => AllPartCons(c, t);
    case Reject =>
  }

  lemma StepStart(c: char, t: string)
    ensures Lang(Start, [c] + t) <==> Lang(Step(Start, c), t)
  {
    var s := [c] + t;
    if Lang(Start, s) {
      var i, j :| SplitAt(s, i, j);
      SplitIsLocal(s, i, j);
      ShiftLocal(c, t, i - 1, j - 1);
      assert LocalSplit(t, i - 1, j - 1);
    }
    if Lang(Step(Start, c), t) {
      var i, j :| LocalSplit(t, i, j);
      ShiftLocal(c, t, i, j);
      SplitIsLocal(s, i + 1, j + 1);
      assert SplitAt(s, i + 1, j + 1);
    }
  }

  lemma StepLocal(c: char, t: string)
    ensures Lang(Local, [c] + t) <==> Lang(Step(Local, c), t)
  {
    var s := [c] + t;
    if Lang(Local, s) {
      var i, j :| LocalSplit(s, i, j);
      if i == 0 {
        LocalAtZero(c, t, j - 1);
        assert 0 < j - 1 && DomainSplit(t, j - 1);
      } else {
        ShiftLocal(c, t, i - 1, j - 1);
        assert LocalSplit(t, i - 1, j - 1);
      }
    }
    if Lang(Step(Local, c), t) {
      if c == '@' {
        var j :| 0 < j && DomainSplit(t, j);
        LocalAtZero(c, t, j);
        assert LocalSplit(s, 0, j + 1);
      } else {
        var i, j :| LocalSplit(t, i, j);
        ShiftLocal(c, t, i, j);
        assert LocalSplit(s, i + 1, j + 1);
      }
    }
  }

  lemma StepAfterAt(c: char, t: string)
    ensures Lang(AfterAt, [c] + t) <==> Lang(Step(AfterAt, c), t)
  {
    var s := [c] + t;
    if Lang(AfterAt, s) {
      var j :| 0 < j && DomainSplit(s, j);
      ShiftDomain(c, t, j - 1);
      assert DomainSplit(t, j - 1);
    }
    if Lang(Step(AfterAt, c), t) {
      var j :| DomainSplit(t, j);
      ShiftDomain(c, t, j);
      assert DomainSplit(s, j + 1);
    }
  }

  lemma StepDomain(c: char, t: string)
    ensures Lang(Domain, [c] + t) <==> Lang(Step(Domain, c), t)
  {
    var s := [c] + t;
    if Lang(Domain, s) {
      var j :| DomainSplit(s, j);
      if j == 0 {
        DomainAtZero(c, t);
      } else {
        ShiftDomain(c, t, j - 1);
        assert DomainSplit(t, j - 1);
        if c == '.' {
          DomainSplitPart(t, j - 1);
        }
      }
    }
    if Lang(Step(Domain, c), t) {
      if c == '.' {
        DomainAtZero(c, t);
        assert DomainSplit(s, 0);
      } else {
        var j :| DomainSplit(t, j);
        ShiftDomain(c, t, j);
        assert DomainSplit(s, j + 1);
      }
    }
  }

  /** Everything in a domain split is a part character, `.` included. */
  lemma DomainSplitPart(t: string, j: int)
    requires DomainSplit(t, j)
    ensures Part(t)
  {
    assert t == t[..j] + [t[j]] + t[j + 1..];
    forall k | 0 <= k < |t| ensures IsPartChar(t[k]) {
      if k < j { assert t[k] == t[..j][k]; }
      else if k > j { assert t[k] == t[j + 1..][k - j - 1]; }
    }
  }

  lemma {:induction false} RunLang(q: State, t: string)
    ensures Run(q, t) == Accept <==> Lang(q, t)
    decreases |t|
  {
    if t == [] {
      LangEmpty(q);
    } else {
      assert t == [t[0]] + t[1..];
      StepLang(q, t[0], t[1..]);
      RunLang(Step(q, t[0]), t[1..]);
    }
  }

  /** The matcher accepts exactly the strings of the pattern. */
  lemma MatchesIffPattern(s: string)
    ensures Run(Start, s) == Accept <==> Pattern(s)
  {
    RunLang(Start, s);
  }

  /** A matching string contains no whitespace at all. */
  lemma {:induction false} PatternNoSpace(s: string)
    requires Pattern(s)
    ensures forall k :: 0 <= k < |s| ==> !IsSpace(s[k])
    ensures s != []
  {
    var i, j :| SplitAt(s, i, j);
    forall k | 0 <= k < |s| ensures !IsSpace(s[k]) {
      if k < i {
        assert s[k] == s[..i][k];
      } else if i < k < j {
        assert s[k] == s[i + 1..j][k - i - 1];
      } else if j < k {
        assert s[k] == s[j + 1..][k - j - 1];
      }
    }
  }

  /** A matching string is not blank, and the `required` check before the
      pattern never hides a match. */
  lemma PatternNotBlank(s: string)
    ensures Pattern(s) ==> !AllSpace(s)
  {
    if Pattern(s) {
      PatternNoSpace(s);
      assert !IsSpace(s[0]);
    }
  }
}
