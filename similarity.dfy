/**
  `is_name_similar_to_email` of test_similar_logic.py:9-31: a name is similar
  to an email when one of the name's tokens (lower-cased, punctuation
  blanked, longer than two characters) occurs in the email's lower-cased
  local part.
*/
module Similarity {
  import opened Text
  import opened Wrappers
  import opened Names
  import opened Tables

  /** `re.sub(r'[^\w\s]', ' ', s)`: every character that is neither a word character nor whitespace becomes a space. */
  function Depunctuate(s: string): (r: string)
    ensures |r| == |s|
  {
    if s == [] then []
    else [if IsWordChar(s[0]) || IsSpace(s[0]) then s[0] else ' '] + Depunctuate(s[1..])
  }

  /** `[p for p in ws if len(p) > 2]` */
  function LongWords(ws: seq<string>): (r: seq<string>)
    ensures |r| <= |ws|
  {
    if ws == [] then []
    else if |ws[0]| > 2 then [ws[0]] + LongWords(ws[1..])
    else LongWords(ws[1..])
  }

  /** `name_parts` (test_similar_logic.py:16-19). */
  function NameTokens(name: string): seq<string> {
    LongWords(Words(Depunctuate(Lower(name))))
  }

  /** `match_count` after the loop has looked at `tokens`. */
  function MatchCount(tokens: seq<string>, local: string): (n: nat)
    ensures n <= |tokens|
  {
    if tokens == [] then 0
    else
      MatchCount(tokens[..|tokens| - 1], local)
      + (if Contains(local, tokens[|tokens| - 1]) then 1 else 0)
  }

  /**
    What the function promises: the name is present and some token of it
    occurs in the local part of a non-empty email. `None` stands for a cell
    that is not text.
  */
  predicate Similar(name: Option<string>, email: string) {
    !GuardedIsMissingName(name) && email != "" && AnyTokenIn(NameTokens(name.value), Username(email))
  }

  /** Some token occurs in `local`. */
  predicate AnyTokenIn(tokens: seq<string>, local: string) {
    exists k :: 0 <= k < |tokens| && Contains(local, tokens[k])
  }

  /** The loop of test_similar_logic.py:26-29: how many tokens occur in `local`. */
  method CountMatches(tokens: seq<string>, local: string) returns (matchCount: nat)
    ensures matchCount == MatchCount(tokens, local)
    ensures matchCount >= 1 <==> AnyTokenIn(tokens, local)
  {
    matchCount := 0;
    for i := 0 to |tokens|
      invariant matchCount == MatchCount(tokens[..i], local)
    {
      assert tokens[..i + 1][..i] == tokens[..i];
      if Contains(local, tokens[i]) {
        matchCount := matchCount + 1;
      }
    }
    assert tokens[..|tokens|] == tokens;
    MatchCountPositive(tokens, local);
  }

  /** test_similar_logic.py:13-31 */
  method IsNameSimilarToEmail(name: Option<string>, email: string) returns (similar: bool)
    ensures similar <==> Similar(name, email)
  {
    if GuardedIsMissingName(name) || email == "" {
      return false;
    }
    var tokens := NameTokens(name.value);
    var local := Username(email);
    if |tokens| == 0 {
      return false;
    }
    var matchCount := CountMatches(tokens, local);
    similar := matchCount >= 1;
  }

  // ---------------------------------------------------------------------
  // Properties
  // ---------------------------------------------------------------------

  /** Counting matches and asking for one agree: the count is positive exactly when some token occurs. */
  lemma {:induction false} MatchCountPositive(tokens: seq<string>, local: string)
    ensures MatchCount(tokens, local) >= 1 <==> AnyTokenIn(tokens, local)
  {
    if tokens != [] {
      var init := tokens[..|tokens| - 1];
      MatchCountPositive(init, local);
      if exists k :: 0 <= k < |init| && Contains(local, init[k]) {
        var k :| 0 <= k < |init| && Contains(local, init[k]);
        assert tokens[k] == init[k];
      }
      if exists k :: 0 <= k < |tokens| && Contains(local, tokens[k]) {
        var k :| 0 <= k < |tokens| && Contains(local, tokens[k]);
        if k < |init| {
          assert init[k] == tokens[k];
        }
      }
    }
  }

  lemma {:induction false} DepunctuateAt(s: string, i: nat)
    requires i < |s|
    ensures Depunctuate(s)[i] == if IsWordChar(s[i]) || IsSpace(s[i]) then s[i] else ' '
  {
    if i > 0 {
      DepunctuateAt(s[1..], i - 1);
    }
  }

  /** Text made of word characters and whitespace is left alone. */
  lemma DepunctuateKeeps(s: string)
    requires forall i :: 0 <= i < |s| ==> IsWordChar(s[i]) || IsSpace(s[i])
    ensures Depunctuate(s) == s
  {
    forall i | 0 <= i < |s| ensures Depunctuate(s)[i] == s[i] {
      DepunctuateAt(s, i);
    }
  }

  lemma {:induction false} LongWordsFrom(ws: seq<string>, k: nat)
    requires k < |LongWords(ws)|
    ensures LongWords(ws)[k] in ws && |LongWords(ws)[k]| > 2
  {
    if |ws[0]| > 2 {
      if k > 0 {
        LongWordsFrom(ws[1..], k - 1);
      }
    } else {
      LongWordsFrom(ws[1..], k);
    }
  }

  /** A character that survives blanking and lower-casing is a lower-case word character. */
  lemma CleanChar(name: string, p: nat)
    requires p < |name|
    requires !IsSpace(Depunctuate(Lower(name))[p])
    ensures IsWordChar(Depunctuate(Lower(name))[p]) && !IsAsciiUpper(Depunctuate(Lower(name))[p])
  {
    DepunctuateAt(Lower(name), p);
    LowerAt(name, p);
  }

  /** Every token is longer than two characters and made of lower-case word characters. */
  lemma TokenShape(name: string, k: nat, i: nat)
    requires k < |NameTokens(name)| && i < |NameTokens(name)[k]|
    ensures |NameTokens(name)[k]| > 2
    ensures IsWordChar(NameTokens(name)[k][i]) && !IsAsciiUpper(NameTokens(name)[k][i])
  {
    var d := Depunctuate(Lower(name));
    var parts := Split(d, Whitespace);
    var t := NameTokens(name)[k];
    LongWordsFrom(Words(d), k);
    var m :| 0 <= m < |Words(d)| && Words(d)[m] == t;
    NonEmptyPieces(parts, m);
    var j :| 0 <= j < |parts| && parts[j] == t;
    SplitPiecesAvoid(d, Whitespace, j, i);
    var p :| 0 <= p < |d| && d[p] == t[i];
    CleanChar(name, p);
  }

  /** Only the text before the first '@' of the email is read. */
  lemma SimilarIgnoresDomain(name: Option<string>, local: string, d1: string, d2: string)
    requires '@' !in local
    ensures Similar(name, local + "@" + d1) == Similar(name, local + "@" + d2)
  {
    LocalPartOf(local, d1);
    LocalPartOf(local, d2);
  }

  /** The case of the email does not matter. */
  lemma SimilarIgnoresEmailCase(name: Option<string>, email: string)
    ensures Similar(name, Lower(email)) == Similar(name, email)
  {
    LowerLocalPart(email);
    LowerIdempotent(LocalPart(email));
  }

  /** A name whose every token is too short is similar to nothing. */
  lemma NoTokensNeverSimilar(name: string, email: string)
    requires NameTokens(name) == []
    ensures !Similar(Some(name), email)
  {
  }

  // ---------------------------------------------------------------------
  // The test data of test_similar_logic.py:34-43
  // ---------------------------------------------------------------------

  /** Two space-free words around one space are the words of the text and collapse to it. */
  lemma TwoWords(x: string, y: string)
    requires x != [] && y != []
    requires forall i :: 0 <= i < |x| ==> !IsSpace(x[i])
    requires forall i :: 0 <= i < |y| ==> !IsSpace(y[i])
    ensures Words(x + " " + y) == [x, y]
    ensures Collapse(x + " " + y) == x + " " + y
  {
    SplitAppendSep(x, ' ', y, Whitespace);
    SplitNoSep(x, Whitespace);
    SplitNoSep(y, Whitespace);
    NonEmptyAll([x, y]);
    assert Join([x, y], " ") == x + " " + Join([y], " ");
  }

  /** A two-word name "A B" whose lower-case words are `a` and `b`. */
  predicate TwoWordName(n1: string, n2: string, a: string, b: string) {
    n1 != [] && n2 != [] && Lower(n1) == a && Lower(n2) == b && |a| > 2 && |b| > 2
    && (forall i :: 0 <= i < |n1| ==> !IsSpace(n1[i]))
    && (forall i :: 0 <= i < |n2| ==> !IsSpace(n2[i]))
    && (forall i :: 0 <= i < |a| ==> IsWordChar(a[i]) && !IsSpace(a[i]))
    && (forall i :: 0 <= i < |b| ==> IsWordChar(b[i]) && !IsSpace(b[i]))
  }

  /** The lower-case form of such a name. */
  lemma TwoWordLower(n1: string, n2: string, a: string, b: string)
    requires TwoWordName(n1, n2, a, b)
    ensures Lower(n1 + " " + n2) == a + " " + b
  {
    LowerAppend(n1 + " ", n2);
    LowerAppend(n1, " ");
    assert Lower(" ") == " ";
  }

  /** The tokens of such a name are its two lower-case words. */
  lemma TwoWordTokens(n1: string, n2: string, a: string, b: string)
    requires TwoWordName(n1, n2, a, b)
    ensures NameTokens(n1 + " " + n2) == [a, b]
  {
    TwoWordLower(n1, n2, a, b);
    var t := a + " " + b;
    forall i | 0 <= i < |t| ensures IsWordChar(t[i]) || IsSpace(t[i]) {
      if i < |a| {
        assert t[i] == a[i];
      } else if i > |a| {
        assert t[i] == b[i - |a| - 1];
      }
    }
    DepunctuateKeeps(t);
    assert Depunctuate(Lower(n1 + " " + n2)) == t;
    TwoWords(a, b);
    assert Words(t) == [a, b];
    assert [a, b][1..] == [b] && [b][1..] == [];
    assert LongWords([b]) == [b];
    assert LongWords([a, b]) == [a] + LongWords([b]);
  }

  /** Such a name is missing only when its lower-case form is a marker. */
  lemma TwoWordMissing(n1: string, n2: string, a: string, b: string)
    requires TwoWordName(n1, n2, a, b)
    ensures IsMissingName(n1 + " " + n2) <==> a + " " + b in MissingMarkers
  {
    TwoWords(n1, n2);
    StripNoEdges(n1 + " " + n2);
    TwoWordLower(n1, n2, a, b);
  }

  lemma AnyOfTwo(a: string, b: string, local: string)
    ensures AnyTokenIn([a, b], local) <==> Contains(local, a) || Contains(local, b)
  {
    if Contains(local, a) {
      assert [a, b][0] == a;
    }
    if Contains(local, b) {
      assert [a, b][1] == b;
    }
    if AnyTokenIn([a, b], local) {
      var k :| 0 <= k < 2 && Contains(local, [a, b][k]);
      assert k == 0 || k == 1;
    }
  }

  /** For a present two-word name, similarity is: one of the two words occurs in the local part. */
  lemma TwoWordSimilar(n1: string, n2: string, a: string, b: string, local: string, domain: string)
    requires TwoWordName(n1, n2, a, b) && a + " " + b !in MissingMarkers
    requires '@' !in local && forall i | 0 <= i < |local| :: !IsAsciiUpper(local[i])
    ensures Similar(Some(n1 + " " + n2), local + "@" + domain) <==> Contains(local, a) || Contains(local, b)
  {
    TwoWordTokens(n1, n2, a, b);
    TwoWordMissing(n1, n2, a, b);
    LocalPartOf(local, domain);
    LowerOfLower(local);
    AnyOfTwo(a, b, local);
    assert |local + "@" + domain| > 0;
  }

  // ---------------------------------------------------------------------
  // Each fact about a literal is proved on its own, then combined.
  // ---------------------------------------------------------------------

  lemma FengLowerFirst()
    ensures Lower("Zhenhua") == "zhenhua"
  {
    LowerByChars("Zhenhua", "zhenhua");
  }

  lemma FengLowerSecond()
    ensures Lower("Feng") == "feng"
  {
    LowerByChars("Feng", "feng");
  }

  lemma FengChars()
    ensures forall i :: 0 <= i < |"Zhenhua"| ==> !IsSpace("Zhenhua"[i])
    ensures forall i :: 0 <= i < |"Feng"| ==> !IsSpace("Feng"[i])
    ensures forall i :: 0 <= i < |"zhenhua"| ==> IsWordChar("zhenhua"[i]) && !IsSpace("zhenhua"[i])
    ensures forall i :: 0 <= i < |"feng"| ==> IsWordChar("feng"[i]) && !IsSpace("feng"[i])
  {
  }

  lemma FengNotMarker()
    ensures "zhenhua" + " " + "feng" !in MissingMarkers
  {
  }

  lemma FengName()
    ensures TwoWordName("Zhenhua", "Feng", "zhenhua", "feng")
    ensures "Zhenhua" + " " + "Feng" == "Zhenhua Feng"
  {
    FengLowerFirst();
    FengLowerSecond();
    FengChars();
  }

  lemma SogaardLowerFirst()
    ensures Lower("Anders") == "anders"
  {
    LowerByChars("Anders", "anders");
  }

  lemma SogaardLowerSecond()
    ensures Lower("Søgaard") == "søgaard"
  {
    LowerByChars("Søgaard", "søgaard");
  }

  lemma SogaardChars()
    ensures forall i :: 0 <= i < |"Anders"| ==> !IsSpace("Anders"[i])
    ensures forall i :: 0 <= i < |"Søgaard"| ==> !IsSpace("Søgaard"[i])
    ensures forall i :: 0 <= i < |"anders"| ==> IsWordChar("anders"[i]) && !IsSpace("anders"[i])
    ensures forall i :: 0 <= i < |"søgaard"| ==> IsWordChar("søgaard"[i]) && !IsSpace("søgaard"[i])
  {
  }

  lemma SogaardNotMarker()
    ensures "anders" + " " + "søgaard" !in MissingMarkers
  {
  }

  lemma SogaardName()
    ensures TwoWordName("Anders", "Søgaard", "anders", "søgaard")
    ensures "Anders" + " " + "Søgaard" == "Anders Søgaard"
  {
    SogaardLowerFirst();
    SogaardLowerSecond();
    SogaardChars();
  }

  lemma SmithLowerFirst()
    ensures Lower("John") == "john"
  {
    LowerByChars("John", "john");
  }

  lemma SmithLowerSecond()
    ensures Lower("Smith") == "smith"
  {
    LowerByChars("Smith", "smith");
  }

  lemma SmithChars()
    ensures forall i :: 0 <= i < |"John"| ==> !IsSpace("John"[i])
    ensures forall i :: 0 <= i < |"Smith"| ==> !IsSpace("Smith"[i])
    ensures forall i :: 0 <= i < |"john"| ==> IsWordChar("john"[i]) && !IsSpace("john"[i])
    ensures forall i :: 0 <= i < |"smith"| ==> IsWordChar("smith"[i]) && !IsSpace("smith"[i])
  {
  }

  lemma SmithNotMarker()
    ensures "john" + " " + "smith" !in MissingMarkers
  {
  }

  lemma SmithName()
    ensures TwoWordName("John", "Smith", "john", "smith")
    ensures "John" + " " + "Smith" == "John Smith"
  {
    SmithLowerFirst();
    SmithLowerSecond();
    SmithChars();
  }

  lemma SoegaardLocal()
    ensures '@' !in "soegaard" && forall i | 0 <= i < |"soegaard"| :: !IsAsciiUpper("soegaard"[i])
    ensures "soegaard" + "@" + "di.ku.dk" == "soegaard@di.ku.dk"
  {
  }

  lemma SoegaardMissesFirst()
    ensures !Contains("soegaard", "anders")
  {
    assert "anders"[1] !in "soegaard";
    LacksChar("soegaard", "anders", 1);
  }

  lemma SoegaardMissesSecond()
    ensures !Contains("soegaard", "søgaard")
  {
    assert "søgaard"[1] !in "soegaard";
    LacksChar("soegaard", "søgaard", 1);
  }

  lemma SoegaardMatch()
    ensures !Contains("soegaard", "anders") && !Contains("soegaard", "søgaard")
  {
    SoegaardMissesFirst();
    SoegaardMissesSecond();
  }

  lemma TestSoegaard()
    ensures !Similar(Some("Anders Søgaard"), "soegaard@di.ku.dk")
  {
    SogaardName();
    SogaardNotMarker();
    SoegaardLocal();
    SoegaardMatch();
    TwoWordSimilar("Anders", "Søgaard", "anders", "søgaard", "soegaard", "di.ku.dk");
  }

  lemma AndersLocal()
    ensures '@' !in "anders" && forall i | 0 <= i < |"anders"| :: !IsAsciiUpper("anders"[i])
    ensures "anders" + "@" + "example.com" == "anders@example.com"
  {
  }

  lemma AndersMatch()
    ensures Contains("anders", "anders")
  {
    assert "anders"[0..6] == "anders";
    ContainsAt("anders", "anders", 0);
  }

  lemma TestAnders()
    ensures Similar(Some("Anders Søgaard"), "anders@example.com")
  {
    SogaardName();
    SogaardNotMarker();
    AndersLocal();
    AndersMatch();
    TwoWordSimilar("Anders", "Søgaard", "anders", "søgaard", "anders", "example.com");
  }

  lemma AsLocal()
    ensures '@' !in "as" && forall i | 0 <= i < |"as"| :: !IsAsciiUpper("as"[i])
    ensures "as" + "@" + "example.com" == "as@example.com"
  {
  }

  lemma AsMissesFirst()
    ensures !Contains("as", "anders")
  {
    assert "anders"[1] !in "as";
    LacksChar("as", "anders", 1);
  }

  lemma AsMissesSecond()
    ensures !Contains("as", "søgaard")
  {
    assert "søgaard"[1] !in "as";
    LacksChar("as", "søgaard", 1);
  }

  lemma AsMatch()
    ensures !Contains("as", "anders") && !Contains("as", "søgaard")
  {
    AsMissesFirst();
    AsMissesSecond();
  }

  lemma TestAs()
    ensures !Similar(Some("Anders Søgaard"), "as@example.com")
  {
    SogaardName();
    SogaardNotMarker();
    AsLocal();
    AsMatch();
    TwoWordSimilar("Anders", "Søgaard", "anders", "søgaard", "as", "example.com");
  }

  lemma ZhfengLocal()
    ensures '@' !in "zhfeng" && forall i | 0 <= i < |"zhfeng"| :: !IsAsciiUpper("zhfeng"[i])
    ensures "zhfeng" + "@" + "example.com" == "zhfeng@example.com"
  {
  }

  lemma ZhfengMatch()
    ensures Contains("zhfeng", "feng")
  {
    assert "zhfeng"[2..6] == "feng";
    ContainsAt("zhfeng", "feng", 2);
  }

  lemma TestZhfeng()
    ensures Similar(Some("Zhenhua Feng"), "zhfeng@example.com")
  {
    FengName();
    FengNotMarker();
    ZhfengLocal();
    ZhfengMatch();
    TwoWordSimilar("Zhenhua", "Feng", "zhenhua", "feng", "zhfeng", "example.com");
  }

  lemma ZDotFengLocal()
    ensures '@' !in "z.feng" && forall i | 0 <= i < |"z.feng"| :: !IsAsciiUpper("z.feng"[i])
    ensures "z.feng" + "@" + "surrey.ac.uk" == "z.feng@surrey.ac.uk"
  {
  }

  lemma ZDotFengMatch()
    ensures Contains("z.feng", "feng")
  {
    assert "z.feng"[2..6] == "feng";
    ContainsAt("z.feng", "feng", 2);
  }

  lemma TestZDotFeng()
    ensures Similar(Some("Zhenhua Feng"), "z.feng@surrey.ac.uk")
  {
    FengName();
    FengNotMarker();
    ZDotFengLocal();
    ZDotFengMatch();
    TwoWordSimilar("Zhenhua", "Feng", "zhenhua", "feng", "z.feng", "surrey.ac.uk");
  }

  lemma JaneDoeLocal()
    ensures '@' !in "jane.doe" && forall i | 0 <= i < |"jane.doe"| :: !IsAsciiUpper("jane.doe"[i])
    ensures "jane.doe" + "@" + "example.com" == "jane.doe@example.com"
  {
  }

  lemma JaneDoeMissesFirst()
    ensures !Contains("jane.doe", "john")
  {
    assert "john"[2] !in "jane.doe";
    LacksChar("jane.doe", "john", 2);
  }

  lemma JaneDoeMissesSecond()
    ensures !Contains("jane.doe", "smith")
  {
    assert "smith"[0] !in "jane.doe";
    LacksChar("jane.doe", "smith", 0);
  }

  lemma JaneDoeMatch()
    ensures !Contains("jane.doe", "john") && !Contains("jane.doe", "smith")
  {
    JaneDoeMissesFirst();
    JaneDoeMissesSecond();
  }

  lemma TestJaneDoe()
    ensures !Similar(Some("John Smith"), "jane.doe@example.com")
  {
    SmithName();
    SmithNotMarker();
    JaneDoeLocal();
    JaneDoeMatch();
    TwoWordSimilar("John", "Smith", "john", "smith", "jane.doe", "example.com");
  }

  lemma ExtractedJunkLocal()
    ensures '@' !in "extracted_junk" && forall i | 0 <= i < |"extracted_junk"| :: !IsAsciiUpper("extracted_junk"[i])
    ensures "extracted_junk" + "@" + "example.com" == "extracted_junk@example.com"
  {
  }

  lemma ExtractedJunkMissesFirst()
    ensures !Contains("extracted_junk", "zhenhua")
  {
    assert "zhenhua"[0] !in "extracted_junk";
    LacksChar("extracted_junk", "zhenhua", 0);
  }

  lemma ExtractedJunkMissesSecond()
    ensures !Contains("extracted_junk", "feng")
  {
    assert "feng"[0] !in "extracted_junk";
    LacksChar("extracted_junk", "feng", 0);
  }

  lemma ExtractedJunkMatch()
    ensures !Contains("extracted_junk", "zhenhua") && !Contains("extracted_junk", "feng")
  {
    ExtractedJunkMissesFirst();
    ExtractedJunkMissesSecond();
  }

  lemma TestExtractedJunk()
    ensures !Similar(Some("Zhenhua Feng"), "extracted_junk@example.com")
  {
    FengName();
    FengNotMarker();
    ExtractedJunkLocal();
    ExtractedJunkMatch();
    TwoWordSimilar("Zhenhua", "Feng", "zhenhua", "feng", "extracted_junk", "example.com");
  }

  /**
    The cases of test_similar_logic.py:36-42 as the code decides them. For
    soegaard@di.ku.dk the script expects True, but neither "anders" nor
    "søgaard" occurs in "soegaard".
  */
  lemma SimilarityTestData()
    ensures !Similar(Some("Anders Søgaard"), "soegaard@di.ku.dk")
    ensures Similar(Some("Anders Søgaard"), "anders@example.com")
    ensures !Similar(Some("Anders Søgaard"), "as@example.com")
    ensures Similar(Some("Zhenhua Feng"), "zhfeng@example.com")
    ensures Similar(Some("Zhenhua Feng"), "z.feng@surrey.ac.uk")
    ensures !Similar(Some("John Smith"), "jane.doe@example.com")
    ensures !Similar(Some("Zhenhua Feng"), "extracted_junk@example.com")
  {
    TestSoegaard();
    TestAnders();
    TestAs();
    TestZhfeng();
    TestZDotFeng();
    TestJaneDoe();
    TestExtractedJunk();
  }

  // ---------------------------------------------------------------------
  // The deduplication check of test_similar_logic.py:52-62
  // ---------------------------------------------------------------------

  /** A row of that check: Name, Email, Citations. */
  datatype Author = Author(name: string, email: string, citations: int)

  function AuthorName(a: Author): string {
    a.name
  }

  function AuthorCitations(a: Author): int {
    a.citations
  }

  const DedupRows: seq<Author> := [
    Author("Anders Søgaard", "anders@ku.dk", 10),
    Author("Anders Søgaard", "soegaard@ku.dk", 13),
    Author("Zhenhua Feng", "z.feng@surrey.ac.uk", 6)
  ]

  /** A row of a rearrangement of the check's rows is one of them. */
  lemma FromDedupRows(s: seq<Author>, x: Author)
    requires multiset(s) == multiset(DedupRows) && x in s
    ensures x == DedupRows[0] || x == DedupRows[1] || x == DedupRows[2]
  {
    assert x in multiset(DedupRows);
  }

  /** The surviving row of a name that one of the check's rows has. */
  lemma SurvivorOfName(s: seq<Author>, k: nat) returns (j: nat)
    requires multiset(s) == multiset(DedupRows) && k < 3
    ensures j < |DropDuplicates(s, AuthorName)|
    ensures AuthorName(DropDuplicates(s, AuthorName)[j]) == DedupRows[k].name
  {
    var out := DropDuplicates(s, AuthorName);
    assert DedupRows[k] in multiset(s);
    var i :| 0 <= i < |s| && s[i] == DedupRows[k];
    assert AuthorName(s[i]) in KeysOf(s, AuthorName);
    var m :| 0 <= m < |out| && AuthorName(out[m]) == DedupRows[k].name;
    j := m;
  }

  /**
    Whatever order the sort leaves the two rows of "Anders Søgaard" in,
    dropping duplicate names keeps soegaard@ku.dk (13 citations) over
    anders@ku.dk (10), and keeps the row of "Zhenhua Feng".
  */
  lemma DedupKeepsHighestCitations(s: seq<Author>)
    requires SortedDesc(s, AuthorCitations) && multiset(s) == multiset(DedupRows)
    ensures DedupRows[1] in DropDuplicates(s, AuthorName)
    ensures DedupRows[2] in DropDuplicates(s, AuthorName)
    ensures DedupRows[0] !in DropDuplicates(s, AuthorName)
  {
    var out := DropDuplicates(s, AuthorName);
    var j := SurvivorOfName(s, 1);
    FromDedupRows(s, out[j]);
    assert DedupRows[1] in multiset(s);
    SortedDedupKeepsMax(s, AuthorName, AuthorCitations, j, DedupRows[1]);
    assert out[j] == DedupRows[1];
    var z := SurvivorOfName(s, 2);
    FromDedupRows(s, out[z]);
    assert out[z] == DedupRows[2];
    forall k | 0 <= k < |out| ensures out[k] != DedupRows[0] {
      if k != j {
        assert AuthorName(out[k]) != AuthorName(out[j]);
      }
    }
  }
}
