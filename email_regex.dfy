/**
  The structural email check `EMAIL_REGEX = ^[\w\.-]+@[\w\.-]+\.\w+$`, used
  with `re.match`, so the pattern is anchored at the start, and Python's `$`
  matches at the very end or just before one final newline.
*/
module EmailRegex {
  import opened Text

  /** `[\w\.-]` */
  predicate IsLocalChar(c: char) {
    IsWordChar(c) || c == '.' || c == '-'
  }

  predicate AllLocalChars(s: string) {
    forall i :: 0 <= i < |s| ==> IsLocalChar(s[i])
  }

  predicate AllWordChars(s: string) {
    forall i :: 0 <= i < |s| ==> IsWordChar(s[i])
  }

  /**
    `s` reads `L "@" X "." Y` with the '@' at `at` and the '.' at `dot`:
    L and X non-empty runs of `[\w.-]`, Y a non-empty run of `\w`.
  */
  predicate ShapeAt(s: string, at: nat, dot: nat) {
    0 < at && at + 1 < dot && dot + 1 < |s| && s[at] == '@' && s[dot] == '.'
    && AllLocalChars(s[..at]) && AllLocalChars(s[at + 1..dot]) && AllWordChars(s[dot + 1..])
  }

  /** The language of the pattern without the `$` newline allowance. */
  ghost predicate HasShape(s: string) {
    exists at: nat, dot: nat :: ShapeAt(s, at, dot)
  }

  /** The domain half of the pattern, `[\w\.-]+\.\w+`, against all of `d`. */
  function DomainMatches(d: string): bool {
    var k := LastIndexOf(d, '.');
    0 < k && k + 1 < |d| && AllLocalChars(d[..k]) && AllWordChars(d[k + 1..])
  }

  /** The pattern against all of `s`: the first '@' splits it into its halves. */
  function WholeMatches(s: string): bool {
    var at := IndexOf(s, '@');
    0 < at < |s| && AllLocalChars(s[..at]) && DomainMatches(s[at + 1..])
  }

  /** `EMAIL_REGEX.match(s)` (main.py:20, backup.py:210). */
  function Matches(s: string): bool {
    WholeMatches(s) || (s != [] && s[|s| - 1] == '\n' && WholeMatches(s[..|s| - 1]))
  }

  /** An accepted string reads as the pattern, '@' and '.' where the scan found them. */
  lemma WholeMatchesShape(s: string) returns (at: nat, dot: nat)
    requires WholeMatches(s)
    ensures ShapeAt(s, at, dot)
  {
    at := IndexOf(s, '@');
    var d := s[at + 1..];
    var k := LastIndexOf(d, '.');
    dot := at + 1 + k;
    assert d[..k] == s[at + 1..dot];
    assert d[k + 1..] == s[dot + 1..];
  }

  /** In a string of the pattern's shape, the first '@' is the one at `at`. */
  lemma ShapeFirstAt(s: string, at: nat, dot: nat)
    requires ShapeAt(s, at, dot)
    ensures IndexOf(s, '@') == at
  {
    forall j | 0 <= j < at ensures s[j] != '@' {
      assert s[..at][j] == s[j];
    }
  }

  /** In the domain part of such a string, the last '.' is the one at `dot`. */
  lemma ShapeLastDot(s: string, at: nat, dot: nat)
    requires ShapeAt(s, at, dot)
    ensures LastIndexOf(s[at + 1..], '.') == dot - at - 1
  {
    var d := s[at + 1..];
    var k := dot - at - 1;
    assert d[k] == '.';
    forall j | k < j < |d| ensures d[j] != '.' {
      assert d[j] == s[dot + 1..][j - k - 1];
    }
    LastIndexOfIs(d, '.', k);
  }

  lemma ShapeWholeMatches(s: string, at: nat, dot: nat)
    requires ShapeAt(s, at, dot)
    ensures WholeMatches(s)
  {
    ShapeFirstAt(s, at, dot);
    ShapeLastDot(s, at, dot);
    var d := s[at + 1..];
    var k := dot - at - 1;
    assert d[..k] == s[at + 1..dot];
    assert d[k + 1..] == s[dot + 1..];
  }

  /** The scan agrees with the pattern's language, in both directions. */
  lemma WholeMatchesIffShape(s: string)
    ensures WholeMatches(s) <==> HasShape(s)
  {
    if WholeMatches(s) {
      var at, dot := WholeMatchesShape(s);
    }
    if HasShape(s) {
      var at: nat, dot: nat :| ShapeAt(s, at, dot);
      ShapeWholeMatches(s, at, dot);
    }
  }

  /** `re.match` with `$`: the shape, or the shape followed by one newline. */
  lemma MatchesIffShape(s: string)
    ensures Matches(s) <==> HasShape(s) || (s != [] && s[|s| - 1] == '\n' && HasShape(s[..|s| - 1]))
  {
    WholeMatchesIffShape(s);
    if s != [] {
      WholeMatchesIffShape(s[..|s| - 1]);
    }
  }

  /** Python's `$` lets one trailing newline through. */
  lemma TrailingNewlineAccepted(s: string)
    requires HasShape(s)
    ensures Matches(s + "\n")
  {
    assert (s + "\n")[..|s + "\n"| - 1] == s;
    MatchesIffShape(s + "\n");
  }

  /** Without a trailing newline the match is exactly the shape. */
  lemma MatchesWithoutNewline(s: string)
    requires s == [] || s[|s| - 1] != '\n'
    ensures Matches(s) <==> HasShape(s)
  {
    MatchesIffShape(s);
  }

  lemma DomainHasNoAt(d: string)
    requires DomainMatches(d)
    ensures forall j :: 0 <= j < |d| ==> d[j] != '@'
  {
    var k := LastIndexOf(d, '.');
    forall j | 0 <= j < |d| ensures d[j] != '@' {
      if j < k {
        assert IsLocalChar(d[..k][j]);
      } else if j > k {
        assert IsWordChar(d[k + 1..][j - k - 1]);
      }
    }
  }

  lemma WholeSingleAt(t: string)
    requires WholeMatches(t)
    ensures forall j :: 0 <= j < |t| && j != IndexOf(t, '@') ==> t[j] != '@'
  {
    var at := IndexOf(t, '@');
    var d := t[at + 1..];
    DomainHasNoAt(d);
    forall j | at < j < |t| ensures t[j] != '@' {
      assert t[j] == d[j - at - 1];
    }
  }

  /** An accepted string holds exactly one '@'. */
  lemma SingleAt(s: string) returns (at: nat)
    requires Matches(s)
    ensures at < |s| && s[at] == '@'
    ensures forall j :: 0 <= j < |s| && j != at ==> s[j] != '@'
  {
    if WholeMatches(s) {
      WholeSingleAt(s);
      at := IndexOf(s, '@');
    } else {
      var t := s[..|s| - 1];
      WholeSingleAt(t);
      at := IndexOf(t, '@');
      forall j | 0 <= j < |s| && j != at ensures s[j] != '@' {
        if j < |t| {
          assert s[j] == t[j];
        }
      }
    }
  }

  /** A string with one '@', at `at`, splits into the text before it and the text after it. */
  lemma SplitAtOnlyAt(s: string, at: nat)
    requires at < |s| && s[at] == '@'
    requires forall j :: 0 <= j < |s| && j != at ==> s[j] != '@'
    ensures Count(s, '@') == 1
    ensures Split(s, {'@'}) == [s[..at], s[at + 1..]]
  {
    var rest := s[at + 1..];
    forall j | 0 <= j < |rest| ensures rest[j] !in {'@'} {
      assert rest[j] == s[at + 1 + j];
    }
    forall j | 0 <= j < at ensures s[j] !in {'@'} {
    }
    SplitFirstPiece(s, {'@'}, at);
    SplitNoSep(rest, {'@'});
    SplitCount(s, '@');
  }

  /**
    An accepted string holds exactly one '@', so `split("@")` cuts it in two
    and the second piece is the whole domain.
  */
  lemma MatchedSplitsInTwo(s: string)
    requires Matches(s)
    ensures Count(s, '@') == 1
    ensures |Split(s, {'@'})| == 2
    ensures s == Split(s, {'@'})[0] + "@" + Split(s, {'@'})[1]
  {
    var at := SingleAt(s);
    SplitAtOnlyAt(s, at);
    assert s == s[..at] + "@" + s[at + 1..];
  }

  /** The local part of an accepted string is a run of `[\w.-]`, so it holds no space. */
  lemma MatchedLocalHasNoSpace(s: string)
    requires Matches(s)
    ensures forall i :: 0 <= i < |LocalPart(s)| ==> LocalPart(s)[i] != ' '
  {
    var at := SingleAt(s);
    assert IndexOf(s, '@') == at;
    var t := if WholeMatches(s) then s else s[..|s| - 1];
    assert WholeMatches(t);
    assert IndexOf(t, '@') == at by {
      if t != s {
        assert forall j :: 0 <= j < |t| ==> t[j] == s[j];
      }
    }
    assert t[..at] == s[..at];
    forall i | 0 <= i < at ensures s[..at][i] != ' ' {
      assert IsLocalChar(t[..at][i]);
    }
  }
}
