/**
  Author-name normalisation and the "name is missing" test, in the three
  variants the repository carries: main.py's, the older backup.py's (fewer
  markers, no whitespace folding) and test_similar_logic.py's (which also
  treats a non-text cell as missing).
*/
module Names {
  import opened Text
  import opened Wrappers

  /** The characters main.py deletes from a name after folding its whitespace. */
  const Invisible: set<char> := {'\U{A0}', '\U{200B}', '\U{200C}', '\U{200D}', '\U{FEFF}', '\U{2028}', '\U{2029}'}

  /** Lower-cased, whitespace-folded names main.py reads as "no name". */
  const MissingMarkers: set<string> := {"", "nan", "none", "null", "unknown", "-", "na", "n/a", "not available"}

  /** backup.py's shorter list: no "n/a", no "not available". */
  const BackupMissingMarkers: set<string> := {"", "nan", "none", "null", "unknown", "-", "na"}

  /** Folding whitespace leaves single spaces between words and nothing at the ends. */
  lemma CollapseShape(s: string)
    ensures Strip(Collapse(s)) == Collapse(s)
    ensures forall c | c in Collapse(s) :: IsSpace(c) ==> c == ' '
  {
    CollapseEnds(s);
    StripNoEdges(Collapse(s));
    CollapseOnlySpaces(s);
  }

  lemma CollapseOnlySpaces(s: string)
    ensures forall c | c in Collapse(s) :: IsSpace(c) ==> c == ' '
  {
    var w := Collapse(s);
    forall i | 0 <= i < |w| ensures IsSpace(w[i]) ==> w[i] == ' ' {
      CollapseSpaces(s, i);
    }
  }

  /**
    main.py `clean_name`: a missing cell becomes "", otherwise runs of
    whitespace become one space, the ends are stripped and the invisible
    characters are deleted.
  */
  function CleanName(value: Option<string>): (r: string)
    ensures value.None? ==> r == ""
    ensures forall i :: 0 <= i < |r| ==> r[i] !in Invisible
    ensures forall i :: 0 <= i < |r| ==> IsSpace(r[i]) ==> r[i] == ' '
  {
    match value
    case None => ""
    case Some(s) =>
      CollapseShape(s);
      RemoveChars(Strip(Collapse(s)), Invisible)
  }

  /** main.py `is_missing_name` */
  predicate IsMissingName(name: string) {
    Lower(Strip(Collapse(name))) in MissingMarkers
  }

  /** backup.py `clean_name`: a missing cell becomes "", otherwise the text is stripped. */
  function BackupCleanName(value: Option<string>): (r: string)
    ensures value.None? ==> r == ""
    ensures value.Some? ==> |r| <= |value.value|
    ensures r == [] || (!IsSpace(r[0]) && !IsSpace(r[|r| - 1]))
  {
    match value
    case None => ""
    case Some(s) => Strip(s)
  }

  /** backup.py `is_missing_name` */
  predicate BackupIsMissingName(name: string) {
    Lower(Strip(name)) in BackupMissingMarkers
  }

  /** test_similar_logic.py `is_missing_name`: `None` stands for a cell that is not text. */
  predicate GuardedIsMissingName(name: Option<string>) {
    name.None? || IsMissingName(name.value)
  }

  // ---------------------------------------------------------------------
  // Properties
  // ---------------------------------------------------------------------

  /** The missing-name test ignores how the whitespace of a name is laid out. */
  lemma MissingIgnoresSpacing(name: string)
    ensures IsMissingName(Collapse(name)) == IsMissingName(name)
  {
    CollapseIdempotent(name);
  }

  /** A name main.py's `clean_name` leaves empty is always missing. */
  lemma EmptyCleanNameIsMissing(value: Option<string>)
    requires CleanName(value) == ""
    ensures IsMissingName(CleanName(value))
  {
    EmptyCollapse();
  }

  lemma EmptyCollapse()
    ensures Collapse("") == ""
  {
    assert Split("", Whitespace) == [""];
    assert [""][1..] == [];
    assert NonEmpty([""]) == [];
  }

  lemma {:induction false} NonEmptyAppend(a: seq<string>, b: seq<string>)
    ensures NonEmpty(a + b) == NonEmpty(a) + NonEmpty(b)
  {
    if a == [] {
      assert a + b == b;
    } else {
      assert (a + b)[0] == a[0];
      assert (a + b)[1..] == a[1..] + b;
      NonEmptyAppend(a[1..], b);
    }
  }

  predicate AllSpace(s: string) {
    forall i :: 0 <= i < |s| ==> IsSpace(s[i])
  }

  lemma {:induction false} WordsOfSpaces(s: string)
    requires AllSpace(s)
    ensures Words(s) == []
  {
    if s != [] {
      assert s == [] + [s[0]] + s[1..];
      SplitAppendSep([], s[0], s[1..], Whitespace);
      assert Split([], Whitespace) == [""];
      NonEmptyAppend([""], Split(s[1..], Whitespace));
      WordsOfSpaces(s[1..]);
    }
  }

  /** A word padded with whitespace on both sides is that one word. */
  lemma {:induction false} WordsOfPadded(p: string, t: string, q: string)
    requires AllSpace(p) && AllSpace(q)
    requires t != [] && forall i :: 0 <= i < |t| ==> !IsSpace(t[i])
    ensures Words(p + t + q) == [t]
  {
    if p != [] {
      assert p + t + q == [] + [p[0]] + (p[1..] + t + q);
      SplitAppendSep([], p[0], p[1..] + t + q, Whitespace);
      assert Split([], Whitespace) == [""];
      NonEmptyAppend([""], Split(p[1..] + t + q, Whitespace));
      WordsOfPadded(p[1..], t, q);
    } else if q == [] {
      assert p + t + q == t;
      SplitNoSep(t, Whitespace);
      assert [t][1..] == [];
      assert NonEmpty([t]) == [t] + NonEmpty([]);
      assert Words(p + t + q) == NonEmpty([t]);
    } else {
      assert p + t + q == t + [q[0]] + q[1..];
      SplitAppendSep(t, q[0], q[1..], Whitespace);
      SplitNoSep(t, Whitespace);
      NonEmptyAppend([t], Split(q[1..], Whitespace));
      assert [t][1..] == [];
      WordsOfSpaces(q[1..]);
    }
  }

  lemma {:induction false} LowerKeepsSpaces(s: string, i: nat)
    requires i < |s|
    ensures IsSpace(Lower(s)[i]) <==> IsSpace(s[i])
  {
    LowerAt(s, i);
  }

  /** None of backup.py's markers holds whitespace. */
  lemma MarkerHasNoSpace(m: string)
    requires m in BackupMissingMarkers
    ensures forall i :: 0 <= i < |m| ==> !IsSpace(m[i])
  {
  }

  /** `strip` removes only whitespace, from the two ends. */
  lemma StripPadding(name: string) returns (p: string, q: string)
    ensures name == p + Strip(name) + q
    ensures AllSpace(p) && AllSpace(q)
  {
    var a := TrimStart(name);
    var t := TrimEnd(a);
    p := LeadingSpace(name);
    q := TrailingSpace(a);
    assert name == p + a;
    assert a == t + q;
    assert Strip(name) == t;
    Assoc(name, p, a, t, q);
  }

  /** Regrouping the pieces of a split string. */
  lemma Assoc(name: string, p: string, a: string, t: string, q: string)
    requires name == p + a && a == t + q
    ensures name == p + t + q
  {
  }

  /** What `lstrip` removes is whitespace. */
  lemma LeadingSpace(s: string) returns (p: string)
    ensures s == p + TrimStart(s) && AllSpace(p)
  {
    p := s[..|s| - |TrimStart(s)|];
    forall i | 0 <= i < |p| ensures IsSpace(p[i]) {
      assert p[i] == s[i];
    }
  }

  /** What `rstrip` removes is whitespace. */
  lemma TrailingSpace(s: string) returns (q: string)
    ensures s == TrimEnd(s) + q && AllSpace(q)
  {
    var n := |TrimEnd(s)|;
    q := s[n..];
    forall i | 0 <= i < |q| ensures IsSpace(q[i]) {
      assert q[i] == s[n + i];
    }
  }

  /**
    Every name backup.py treats as missing, main.py treats as missing too:
    the newer list only grew, and folding whitespace cannot turn a marker
    into something else.
  */
  lemma BackupMissingImpliesMissing(name: string)
    requires BackupIsMissingName(name)
    ensures IsMissingName(name)
  {
    var t := Strip(name);
    var p, q := StripPadding(name);
    MarkerHasNoSpace(Lower(t));
    assert forall i :: 0 <= i < |t| ==> !IsSpace(t[i]) by {
      forall i | 0 <= i < |t| ensures !IsSpace(t[i]) {
        LowerKeepsSpaces(t, i);
      }
    }
    if t == [] {
      assert name == p + q;
      assert AllSpace(name) by {
        forall i | 0 <= i < |name| ensures IsSpace(name[i]) {
          if i >= |p| {
            assert name[i] == q[i - |p|];
          }
        }
      }
      WordsOfSpaces(name);
      EmptyCollapse();
      assert Collapse(name) == Join([], " ");
    } else {
      WordsOfPadded(p, t, q);
      assert Collapse(name) == t;
      StripNoEdges(t);
    }
  }

  /** "n/a" has no whitespace, so collapsing and stripping leave it alone. */
  lemma NotApplicableIsClean()
    ensures Strip(Collapse("n/a")) == "n/a"
    ensures Strip("n/a") == "n/a"
  {
    assert forall i :: 0 <= i < |"n/a"| ==> "n/a"[i] !in Whitespace;
    SplitNoSep("n/a", Whitespace);
    assert ["n/a"][1..] == [];
    assert NonEmpty(["n/a"]) == ["n/a"];
    assert Collapse("n/a") == "n/a";
    StripNoEdges("n/a");
  }

  lemma NotApplicableIsLower()
    ensures Lower("n/a") == "n/a"
  {
    LowerOfLower("n/a");
  }

  lemma NotApplicableMarkers()
    ensures "n/a" in MissingMarkers && "n/a" !in BackupMissingMarkers
  {
  }

  /** The converse fails: "n/a" is missing for main.py and a real name for backup.py. */
  lemma NotApplicableOnlyMissingInMain()
    ensures IsMissingName("n/a") && !BackupIsMissingName("n/a")
  {
    NotApplicableIsClean();
    NotApplicableIsLower();
    NotApplicableMarkers();
  }

  /** No marker holds an invisible character: they are plain ASCII. */
  lemma MarkerHasNoInvisible(m: string, i: nat)
    requires m in MissingMarkers && i < |m|
    ensures m[i] !in Invisible
  {
  }

  /** A text that lower-cases to a marker holds no invisible character. */
  lemma LowersToMarker(t: string)
    requires Lower(t) in MissingMarkers
    ensures forall i :: 0 <= i < |t| ==> t[i] !in Invisible
  {
    forall i | 0 <= i < |t| ensures t[i] !in Invisible {
      LowerAt(t, i);
      MarkerHasNoInvisible(Lower(t), i);
      InvisibleHasNoCase(t[i]);
    }
  }

  /** Lower-casing leaves the invisible characters alone. */
  lemma InvisibleHasNoCase(c: char)
    ensures c in Invisible ==> ToLower(c) == c
  {
  }

  /**
    Cleaning never revives a missing name: a name main.py reads as missing
    is still missing after `clean_name`.
  */
  lemma MissingSurvivesCleaning(name: string)
    requires IsMissingName(name)
    ensures IsMissingName(CleanName(Some(name)))
  {
    CollapseShape(name);
    LowersToMarker(Collapse(name));
    CleanVisible(name);
    MissingIgnoresSpacing(name);
  }

  /** A name with nothing invisible cleans to its whitespace-collapsed form. */
  lemma CleanVisible(name: string)
    requires forall i :: 0 <= i < |Collapse(name)| ==> Collapse(name)[i] !in Invisible
    ensures CleanName(Some(name)) == Collapse(name)
  {
    CollapseShape(name);
    RemoveNothing(Collapse(name), Invisible);
  }

  lemma ZeroWidthSpaceIsWord()
    ensures Collapse("\U{200B}") == "\U{200B}"
    ensures Strip("\U{200B}") == "\U{200B}"
    ensures Lower("\U{200B}") == "\U{200B}"
  {
    assert "\U{200B}"[0] !in Whitespace;
    SplitNoSep("\U{200B}", Whitespace);
    assert ["\U{200B}"][1..] == [];
    assert NonEmpty(["\U{200B}"]) == ["\U{200B}"];
    StripNoEdges("\U{200B}");
    LowerOfLower("\U{200B}");
  }

  lemma ZeroWidthSpaceIsInvisible()
    ensures "\U{200B}" !in MissingMarkers
    ensures RemoveChars("\U{200B}", Invisible) == ""
  {
    assert RemoveChars("\U{200B}", Invisible) == RemoveChars("", Invisible);
  }

  lemma EmptyIsMissing()
    ensures IsMissingName("")
  {
    EmptyCollapse();
    StripNoEdges("");
    LowerOfLower("");
  }

  /**
    The converse fails: a lone zero-width space is a name to the guarded
    test of test_similar_logic.py (it has no whitespace to fold), yet
    main.py's `clean_name` deletes it and leaves a missing name.
  */
  lemma ZeroWidthSpaceMissingOnlyAfterCleaning()
    ensures !GuardedIsMissingName(Some("\U{200B}"))
    ensures CleanName(Some("\U{200B}")) == ""
    ensures IsMissingName(CleanName(Some("\U{200B}")))
  {
    ZeroWidthSpaceIsWord();
    ZeroWidthSpaceIsInvisible();
    EmptyIsMissing();
  }
}
