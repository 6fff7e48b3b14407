/** The name rule of the validator: `String.matches` with the pattern
    `^(?i:[a-z]+ [a-z ]+)$`. Without UNICODE_CASE the `(?i:` group folds ASCII
    letters only, and `matches` requires the whole string to be consumed. */
module NamePattern {
  import opened Strings

  /** Position `i` splits `s` the way the pattern does: a non-empty run of
      letters, the single space at `i`, then a non-empty run of letters and
      spaces reaching the end of the string. */
  predicate IsSplit(s: string, i: int) {
    && 0 < i < |s| - 1
    && AllLetters(s[..i])
    && s[i] == ' '
    && AllLettersOrSpaces(s[i + 1..])
  }

  /** The meaning of the pattern: some position splits the string. */
  predicate NameMatches(s: string) {
    exists i | 0 < i < |s| - 1 :: IsSplit(s, i)
  }

  /** Every accepted name starts with a letter, holds only letters and spaces,
      and is at least three characters long. */
  lemma AcceptedNameShape(s: string)
    requires NameMatches(s)
    ensures |s| >= 3
    ensures IsLetter(s[0])
    ensures AllLettersOrSpaces(s)
  {
  }

  /** Conversely, a string that starts with a letter, holds only letters and
      spaces, and has a space somewhere before its last character is accepted:
      the first space is the split. */
  lemma NameMatchesFromShape(s: string, k: int)
    requires 0 < k < |s| - 1 && s[k] == ' '
    requires IsLetter(s[0])
    requires AllLettersOrSpaces(s)
    ensures NameMatches(s)
  {
    var p := 0;
    while s[p] != ' '
      invariant 0 <= p <= k
      invariant forall j :: 0 <= j < p ==> IsLetter(s[j])
      decreases k - p
    {
      p := p + 1;
    }
    assert p > 0;
    assert IsSplit(s, p);
  }

  /** States of a left-to-right scanner for the pattern. */
  datatype ScanState = Start | FirstWord | Separator | Rest | Reject

  /** The scanner's transition on one character. */
  function Step(st: ScanState, c: char): ScanState {
    match st
    case Start => if IsLetter(c) then FirstWord else Reject
    case FirstWord => if IsLetter(c) then FirstWord else if c == ' ' then Separator else Reject
    case Separator => if IsLetterOrSpace(c) then Rest else Reject
    case Rest => if IsLetterOrSpace(c) then Rest else Reject
    case Reject => Reject
  }

  /** What each state says about the prefix read so far. */
  predicate Describes(st: ScanState, p: string) {
    match st
    case Start => p == []
    case FirstWord => |p| >= 1 && AllLetters(p)
    case Separator => |p| >= 2 && AllLetters(p[..|p| - 1]) && p[|p| - 1] == ' '
    case Rest => NameMatches(p)
    case Reject => |p| >= 1 && (!IsLetter(p[0]) || !AllLettersOrSpaces(p))
  }

  /** One transition keeps the state's description true of the longer prefix. */
  lemma StepDescribes(st: ScanState, p: string, c: char)
    requires Describes(st, p)
    ensures Describes(Step(st, c), p + [c])
  {
    var q := p + [c];
    assert q[..|p|] == p;
    match st
    case Start =>
    case FirstWord =>
      if c == ' ' {
        assert q[..|q| - 1] == p;
      } else {
        assert q[|p|] == c;
      }
    case Separator =>
      if IsLetterOrSpace(c) {
        var i := |p| - 1;
        assert q[..i] == p[..|p| - 1];
        assert q[i + 1..] == [c];
        assert IsSplit(q, i);
      } else {
        assert q[|p|] == c;
      }
    case Rest =>
      if IsLetterOrSpace(c) {
        var i :| 0 < i < |p| - 1 && IsSplit(p, i);
        assert q[..i] == p[..i];
        assert q[i + 1..] == p[i + 1..] + [c];
        assert IsSplit(q, i);
      } else {
        assert !IsLetterOrSpace(q[|p|]);
      }
    case Reject =>
      assert q[0] == p[0];
      if !AllLettersOrSpaces(p) {
        var j :| 0 <= j < |p| && !IsLetterOrSpace(p[j]);
        assert q[j] == p[j];
      }
  }

  /** Only the accepting state describes an accepted whole string. */
  lemma DescribesAccepts(st: ScanState, s: string)
    requires Describes(st, s)
    ensures st == Rest <==> NameMatches(s)
  {
  }

  /** Decides the pattern in one left-to-right pass. */
  method MatchName(s: string) returns (b: bool)
    ensures b <==> NameMatches(s)
  {
    var st := Start;
    var k := 0;
    while k < |s|
      invariant 0 <= k <= |s|
      invariant Describes(st, s[..k])
    {
      StepDescribes(st, s[..k], s[k]);
      assert s[..k + 1] == s[..k] + [s[k]];
      st := Step(st, s[k]);
      k := k + 1;
    }
    assert s[..k] == s;
    DescribesAccepts(st, s);
    b := st == Rest;
  }
}
