/**
  The rule-based name extractor `extract_name_from_email` of main.py:61-127.
  The text before the first '@' is lower-cased and cut at '.', '-', '_' and
  '+'; a piece survives when it is non-empty, holds no digit, is longer than
  two characters and is no stop word; the survivors are capitalised. Two or
  more survivors, joined by single spaces, make the name; fewer give "".
*/
module NameExtractor {
  import opened Text
  import opened EmailRegex

  /** `STOPWORDS` (main.py:88-93): role and department words. */
  const Stopwords: set<string> := {
    "admin", "info", "support", "contact", "mail", "email",
    "noreply", "no-reply", "help", "team", "office", "phd",
    "lab", "dept", "university", "research", "group", "center",
    "cs", "eng", "sci", "edu", "web", "service", "services"
  }

  /** The character class of `re.split(r'[.\-_+]', username)`. */
  const Separators: set<char> := {'.', '-', '_', '+'}

  /** The fewest surviving pieces that make a name. */
  const MinParts: nat := 2

  /** The tests of main.py:103-117 that a piece must pass. */
  predicate Keep(part: string) {
    part != "" && !AllDigits(part) && !HasDigit(part) && |part| > 2 && part !in Stopwords
  }

  /** The pieces the loop of main.py:102 runs over. */
  function Parts(email: string): (parts: seq<string>)
    ensures |parts| >= 1
  {
    Split(Username(email), Separators)
  }

  /** `valid_parts` after the loop has seen `parts`: the kept pieces, capitalised. */
  function ValidParts(parts: seq<string>): (r: seq<string>)
    ensures |r| <= |parts|
  {
    if parts == [] then []
    else
      var last := parts[|parts| - 1];
      var r := ValidParts(parts[..|parts| - 1]);
      if Keep(last) then r + [Capitalize(last)] else r
  }

  /** What `extract_name_from_email(email)` returns. */
  function ExtractName(email: string): string {
    var valid := ValidParts(Parts(email));
    if |valid| < MinParts then "" else Join(valid, " ")
  }

  /**
    main.py:95-124: the loop that appends to `valid_parts`. The `except`
    branch of main.py:126-127 cannot be reached, as every email handed to
    the function is a string.
  */
  method ExtractNameFromEmail(email: string) returns (name: string)
    ensures name == ExtractName(email)
  {
    var username := Username(email);
    var parts := Split(username, Separators);
    var valid: seq<string> := [];
    for i := 0 to |parts|
      invariant valid == ValidParts(parts[..i])
    {
      assert parts[..i + 1][..i] == parts[..i];
      var part := parts[i];
      if part == "" {
        continue;
      }
      if AllDigits(part) {
        continue;
      }
      if HasDigit(part) {
        continue;
      }
      if |part| <= 2 {
        continue;
      }
      if part in Stopwords {
        continue;
      }
      valid := valid + [Capitalize(part)];
    }
    assert parts[..|parts|] == parts;
    if |valid| < MinParts {
      return "";
    }
    name := Join(valid, " ");
  }

  // ---------------------------------------------------------------------
  // Properties
  // ---------------------------------------------------------------------

  /** The surviving pieces keep their order: the filter distributes over concatenation. */
  lemma {:induction false} ValidPartsAppend(a: seq<string>, b: seq<string>)
    ensures ValidParts(a + b) == ValidParts(a) + ValidParts(b)
  {
    if b == [] {
      assert a + b == a;
    } else {
      var b' := b[..|b| - 1];
      assert (a + b)[..|a + b| - 1] == a + b';
      assert (a + b)[|a + b| - 1] == b[|b| - 1];
      ValidPartsAppend(a, b');
    }
  }

  /** Every surviving piece is a kept piece, capitalised. */
  lemma {:induction false} ValidPartsKept(parts: seq<string>, j: nat)
    requires j < |ValidParts(parts)|
    ensures exists i :: 0 <= i < |parts| && Keep(parts[i]) && ValidParts(parts)[j] == Capitalize(parts[i])
  {
    var init := parts[..|parts| - 1];
    var last := parts[|parts| - 1];
    if j < |ValidParts(init)| {
      ValidPartsKept(init, j);
      var i :| 0 <= i < |init| && Keep(init[i]) && ValidParts(init)[j] == Capitalize(init[i]);
      assert init[i] == parts[i];
    } else {
      assert Keep(last) && ValidParts(parts)[j] == Capitalize(last);
    }
  }

  /** A sequence is what comes before an element, the element, and what comes after. */
  lemma Around(s: seq<string>, i: nat)
    requires i < |s|
    ensures s == s[..i] + [s[i]] + s[i + 1..]
  {
  }

  lemma KeptInMiddle(pre: seq<string>, p: string, post: seq<string>)
    requires Keep(p)
    ensures ValidParts(pre + [p] + post) == ValidParts(pre) + [Capitalize(p)] + ValidParts(post)
  {
    ValidPartsAppend(pre + [p], post);
    assert (pre + [p])[..|pre|] == pre;
  }

  /** Every kept piece survives, capitalised. */
  lemma ValidPartsComplete(parts: seq<string>, i: nat)
    requires i < |parts| && Keep(parts[i])
    ensures Capitalize(parts[i]) in ValidParts(parts)
  {
    var pre, post := parts[..i], parts[i + 1..];
    Around(parts, i);
    KeptInMiddle(pre, parts[i], post);
    assert ValidParts(parts)[|ValidParts(pre)|] == Capitalize(parts[i]);
  }

  /** The extractor answers "" exactly when fewer than two pieces survive. */
  lemma EmptyIffFewParts(email: string)
    ensures ExtractName(email) == "" <==> |ValidParts(Parts(email))| < MinParts
  {
    var valid := ValidParts(Parts(email));
    if |valid| >= MinParts {
      assert Join(valid, " ") == valid[0] + " " + Join(valid[1..], " ");
    }
  }

  /** `str.capitalize()` one character at a time. */
  lemma CapitalizeAt(p: string, i: nat)
    requires i < |p|
    ensures Capitalize(p)[i] == if i == 0 then ToUpper(p[0]) else ToLower(p[i])
  {
    if i > 0 {
      LowerAt(p[1..], i - 1);
    }
  }

  /** Each character of a space-joined text is a space or a character of one of the pieces. */
  lemma {:induction false} JoinChar(parts: seq<string>, i: nat)
    requires i < |Join(parts, " ")|
    ensures Join(parts, " ")[i] == ' '
      || exists k, j :: 0 <= k < |parts| && 0 <= j < |parts[k]| && Join(parts, " ")[i] == parts[k][j]
  {
    if |parts| > 1 {
      var tail := Join(parts[1..], " ");
      assert Join(parts, " ") == parts[0] + " " + tail;
      if i < |parts[0]| {
        assert Join(parts, " ")[i] == parts[0][i];
      } else if i > |parts[0]| {
        var t := i - |parts[0]| - 1;
        JoinChar(parts[1..], t);
        assert Join(parts, " ")[i] == tail[t];
        if tail[t] != ' ' {
          var k, j :| 0 <= k < |parts[1..]| && 0 <= j < |parts[1..][k]| && tail[t] == parts[1..][k][j];
          assert parts[k + 1][j] == tail[t];
        }
      }
    } else {
      assert Join(parts, " ")[i] == parts[0][i];
    }
  }

  /** Capitalising a digit-free piece leaves it digit-free. */
  lemma CapitalizeNoDigit(p: string, i: nat)
    requires !HasDigit(p) && i < |p|
    ensures !IsDigit(Capitalize(p)[i])
  {
    HasDigitIff(p);
    CapitalizeAt(p, i);
  }

  /** An extracted name never holds a digit (main.py:107-111). */
  lemma NoDigitInName(email: string)
    ensures forall i :: 0 <= i < |ExtractName(email)| ==> !IsDigit(ExtractName(email)[i])
  {
    var parts := Parts(email);
    var valid := ValidParts(parts);
    if |valid| >= MinParts {
      forall i | 0 <= i < |Join(valid, " ")| ensures !IsDigit(Join(valid, " ")[i]) {
        JoinChar(valid, i);
        if Join(valid, " ")[i] != ' ' {
          var k, j :| 0 <= k < |valid| && 0 <= j < |valid[k]| && Join(valid, " ")[i] == valid[k][j];
          ValidPartsKept(parts, k);
          var m :| 0 <= m < |parts| && Keep(parts[m]) && valid[k] == Capitalize(parts[m]);
          CapitalizeNoDigit(parts[m], j);
        }
      }
    }
  }

  /** Each word of an extracted name has at least three characters. */
  lemma LongParts(parts: seq<string>, k: nat)
    requires k < |ValidParts(parts)|
    ensures |ValidParts(parts)[k]| > 2
  {
    ValidPartsKept(parts, k);
  }

  /** Lower-casing a space-free text adds no space. */
  lemma LowerNoSpace(s: string)
    requires forall i :: 0 <= i < |s| ==> s[i] != ' '
    ensures forall i :: 0 <= i < |Lower(s)| ==> Lower(s)[i] != ' '
  {
    forall i | 0 <= i < |s| ensures Lower(s)[i] != ' ' {
      LowerAt(s, i);
    }
  }

  /** A surviving piece of a space-free local part holds no space. */
  lemma PartNoSpace(email: string, k: nat, j: nat)
    requires forall i :: 0 <= i < |LocalPart(email)| ==> LocalPart(email)[i] != ' '
    requires k < |ValidParts(Parts(email))| && j < |ValidParts(Parts(email))[k]|
    ensures ValidParts(Parts(email))[k][j] != ' '
  {
    var parts := Parts(email);
    LowerNoSpace(LocalPart(email));
    ValidPartsKept(parts, k);
    var m :| 0 <= m < |parts| && Keep(parts[m]) && ValidParts(parts)[k] == Capitalize(parts[m]);
    SplitPiecesAvoid(Username(email), Separators, m, j);
    CapitalizeAt(parts[m], j);
  }

  /**
    A name splits back, at its spaces, into the capitalised pieces that made
    it, provided the local part has no space (an email that matches
    `EMAIL_REGEX` has none).
  */
  lemma NameSplitsIntoParts(email: string)
    requires forall i :: 0 <= i < |LocalPart(email)| ==> LocalPart(email)[i] != ' '
    requires |ValidParts(Parts(email))| >= MinParts
    ensures Split(ExtractName(email), {' '}) == ValidParts(Parts(email))
  {
    var valid := ValidParts(Parts(email));
    forall k, j | 0 <= k < |valid| && 0 <= j < |valid[k]| ensures valid[k][j] !in {' '} {
      PartNoSpace(email, k, j);
    }
    SplitJoin(valid, ' ', {' '});
  }

  /** For every email main.py passes on, the name splits back into its pieces. */
  lemma ValidEmailNameSplits(email: string)
    requires Matches(email)
    requires |ValidParts(Parts(email))| >= MinParts
    ensures Split(ExtractName(email), {' '}) == ValidParts(Parts(email))
  {
    MatchedLocalHasNoSpace(email);
    NameSplitsIntoParts(email);
  }

  /** Only the text before the first '@' is read. */
  lemma ExtractIgnoresDomain(local: string, d1: string, d2: string)
    requires '@' !in local
    ensures ExtractName(local + "@" + d1) == ExtractName(local + "@" + d2)
    ensures ExtractName(local + "@" + d1) == ExtractName(local)
  {
    LocalPartOf(local, d1);
    LocalPartOf(local, d2);
    LocalPartIdempotent(local + "@" + d1);
  }

  /**
    "no-reply" is a stop word that no piece can equal: '-' is a separator,
    so the pieces never contain one.
  */
  lemma NoReplyNeverAPart(email: string, k: nat)
    requires k < |Parts(email)|
    ensures Parts(email)[k] != "no-reply"
  {
    if |Parts(email)[k]| == 8 {
      SplitPiecesAvoid(Username(email), Separators, k, 2);
    }
  }

  // ---------------------------------------------------------------------
  // The examples of main.py:76-85, as the code computes them
  // ---------------------------------------------------------------------

  /** The pieces of a lower-case local part are its own split. */
  lemma PartsOf(local: string, domain: string)
    requires '@' !in local
    requires forall i | 0 <= i < |local| :: !IsAsciiUpper(local[i])
    ensures Parts(local + "@" + domain) == Split(local, Separators)
  {
    LocalPartOf(local, domain);
    LowerOfLower(local);
  }

  /** Two separator-free words around one separator split into those words. */
  lemma TwoPieces(a: string, c: char, b: string)
    requires c in Separators
    requires forall i :: 0 <= i < |a| ==> a[i] !in Separators
    requires forall i :: 0 <= i < |b| ==> b[i] !in Separators
    ensures Split(a + [c] + b, Separators) == [a, b]
  {
    SplitAppendSep(a, c, b, Separators);
    SplitNoSep(a, Separators);
    SplitNoSep(b, Separators);
  }

  /** `str.capitalize()` of a lower-case word upper-cases its first letter only. */
  lemma CapitalizeLowerWord(p: string)
    requires p != [] && forall i :: 0 <= i < |p| ==> IsAsciiLower(p[i])
    ensures Capitalize(p) == [ToUpper(p[0])] + p[1..]
  {
    LowerOfLower(p[1..]);
  }

  /** A single-piece local part never yields a name. */
  lemma OnePiece(local: string, domain: string)
    requires '@' !in local
    requires forall i | 0 <= i < |local| :: !IsAsciiUpper(local[i])
    requires forall i :: 0 <= i < |local| ==> local[i] !in Separators
    ensures ExtractName(local + "@" + domain) == ""
  {
    PartsOf(local, domain);
    SplitNoSep(local, Separators);
  }

  /** Two kept pieces make the name "A B". */
  lemma TwoKept(a: string, c: char, b: string, domain: string)
    requires '@' !in a + [c] + b
    requires forall i | 0 <= i < |a + [c] + b| :: !IsAsciiUpper((a + [c] + b)[i])
    requires c in Separators
    requires forall i :: 0 <= i < |a| ==> a[i] !in Separators
    requires forall i :: 0 <= i < |b| ==> b[i] !in Separators
    requires Keep(a) && Keep(b)
    ensures ExtractName(a + [c] + b + "@" + domain) == Capitalize(a) + " " + Capitalize(b)
  {
    PartsOf(a + [c] + b, domain);
    TwoPieces(a, c, b);
    assert [a, b][..1] == [a] && [a][..0] == [];
    assert ValidParts([a]) == [Capitalize(a)];
    assert ValidParts([a, b]) == [Capitalize(a), Capitalize(b)];
    assert Join([Capitalize(a), Capitalize(b)], " ") == Capitalize(a) + " " + Join([Capitalize(b)], " ");
  }

  /** Two pieces of which the first is dropped leave at most one survivor. */
  lemma FirstDropped(a: string, c: char, b: string, domain: string)
    requires '@' !in a + [c] + b
    requires forall i | 0 <= i < |a + [c] + b| :: !IsAsciiUpper((a + [c] + b)[i])
    requires c in Separators
    requires forall i :: 0 <= i < |a| ==> a[i] !in Separators
    requires forall i :: 0 <= i < |b| ==> b[i] !in Separators
    requires !Keep(a)
    ensures ExtractName(a + [c] + b + "@" + domain) == ""
  {
    PartsOf(a + [c] + b, domain);
    TwoPieces(a, c, b);
    assert [a, b][..1] == [a] && [a][..0] == [];
    assert ValidParts([a]) == [];
    assert |ValidParts([a, b])| <= 1;
  }

  lemma MohammadChars()
    ensures '@' !in "mohammad" + ['.'] + "ghadri"
    ensures forall i | 0 <= i < |"mohammad" + ['.'] + "ghadri"| :: !IsAsciiUpper(("mohammad" + ['.'] + "ghadri")[i])
    ensures forall i :: 0 <= i < |"mohammad"| ==> "mohammad"[i] !in Separators
    ensures forall i :: 0 <= i < |"ghadri"| ==> "ghadri"[i] !in Separators
  {
  }

  lemma MohammadPieces()
    ensures "mohammad" + ['.'] + "ghadri" + "@" + "x.com" == "mohammad.ghadri@x.com"
  {
  }

  lemma MohammadKeepFirst()
    ensures Keep("mohammad")
  {
  }

  lemma MohammadKeepSecond()
    ensures Keep("ghadri")
  {
  }

  lemma MohammadCapFirst()
    ensures Capitalize("mohammad") == "Mohammad"
  {
    assert forall i :: 0 <= i < |"mohammad"| ==> IsAsciiLower("mohammad"[i]);
    CapitalizeLowerWord("mohammad");
    assert [ToUpper('m')] + "ohammad" == "Mohammad";
  }

  lemma MohammadCapSecond()
    ensures Capitalize("ghadri") == "Ghadri"
  {
    assert forall i :: 0 <= i < |"ghadri"| ==> IsAsciiLower("ghadri"[i]);
    CapitalizeLowerWord("ghadri");
    assert [ToUpper('g')] + "hadri" == "Ghadri";
  }

  lemma MohammadCaps()
    ensures Capitalize("mohammad") + " " + Capitalize("ghadri") == "Mohammad Ghadri"
  {
    MohammadCapFirst();
    MohammadCapSecond();
  }

  lemma DocMohammad()
    ensures ExtractName("mohammad.ghadri@x.com") == "Mohammad Ghadri"
  {
    MohammadChars();
    MohammadKeepFirst();
    MohammadKeepSecond();
    MohammadCaps();
    MohammadPieces();
    TwoKept("mohammad", '.', "ghadri", "x.com");
  }

  lemma SanaChars()
    ensures '@' !in "sana" + ['.'] + "syed"
    ensures forall i | 0 <= i < |"sana" + ['.'] + "syed"| :: !IsAsciiUpper(("sana" + ['.'] + "syed")[i])
    ensures forall i :: 0 <= i < |"sana"| ==> "sana"[i] !in Separators
    ensures forall i :: 0 <= i < |"syed"| ==> "syed"[i] !in Separators
  {
  }

  lemma SanaPieces()
    ensures "sana" + ['.'] + "syed" + "@" + "x.com" == "sana.syed@x.com"
  {
  }

  lemma SanaKeepFirst()
    ensures Keep("sana")
  {
  }

  lemma SanaKeepSecond()
    ensures Keep("syed")
  {
  }

  lemma SanaCapFirst()
    ensures Capitalize("sana") == "Sana"
  {
    assert forall i :: 0 <= i < |"sana"| ==> IsAsciiLower("sana"[i]);
    CapitalizeLowerWord("sana");
    assert [ToUpper('s')] + "ana" == "Sana";
  }

  lemma SanaCapSecond()
    ensures Capitalize("syed") == "Syed"
  {
    assert forall i :: 0 <= i < |"syed"| ==> IsAsciiLower("syed"[i]);
    CapitalizeLowerWord("syed");
    assert [ToUpper('s')] + "yed" == "Syed";
  }

  lemma SanaCaps()
    ensures Capitalize("sana") + " " + Capitalize("syed") == "Sana Syed"
  {
    SanaCapFirst();
    SanaCapSecond();
  }

  lemma DocSana()
    ensures ExtractName("sana.syed@x.com") == "Sana Syed"
  {
    SanaChars();
    SanaKeepFirst();
    SanaKeepSecond();
    SanaCaps();
    SanaPieces();
    TwoKept("sana", '.', "syed", "x.com");
  }

  lemma BinyuanChars()
    ensures '@' !in "binyuan" + ['.'] + "hby"
    ensures forall i | 0 <= i < |"binyuan" + ['.'] + "hby"| :: !IsAsciiUpper(("binyuan" + ['.'] + "hby")[i])
    ensures forall i :: 0 <= i < |"binyuan"| ==> "binyuan"[i] !in Separators
    ensures forall i :: 0 <= i < |"hby"| ==> "hby"[i] !in Separators
  {
  }

  lemma BinyuanPieces()
    ensures "binyuan" + ['.'] + "hby" + "@" + "x.com" == "binyuan.hby@x.com"
  {
  }

  lemma BinyuanKeepFirst()
    ensures Keep("binyuan")
  {
  }

  lemma BinyuanKeepSecond()
    ensures Keep("hby")
  {
  }

  lemma BinyuanCapFirst()
    ensures Capitalize("binyuan") == "Binyuan"
  {
    assert forall i :: 0 <= i < |"binyuan"| ==> IsAsciiLower("binyuan"[i]);
    CapitalizeLowerWord("binyuan");
    assert [ToUpper('b')] + "inyuan" == "Binyuan";
  }

  lemma BinyuanCapSecond()
    ensures Capitalize("hby") == "Hby"
  {
    assert forall i :: 0 <= i < |"hby"| ==> IsAsciiLower("hby"[i]);
    CapitalizeLowerWord("hby");
    assert [ToUpper('h')] + "by" == "Hby";
  }

  lemma BinyuanCaps()
    ensures Capitalize("binyuan") + " " + Capitalize("hby") == "Binyuan Hby"
  {
    BinyuanCapFirst();
    BinyuanCapSecond();
  }

  lemma DocBinyuan()
    ensures ExtractName("binyuan.hby@x.com") == "Binyuan Hby"
  {
    BinyuanChars();
    BinyuanKeepFirst();
    BinyuanKeepSecond();
    BinyuanCaps();
    BinyuanPieces();
    TwoKept("binyuan", '.', "hby", "x.com");
  }

  lemma LuChars()
    ensures '@' !in "lu" + ['.'] + "qin"
    ensures forall i | 0 <= i < |"lu" + ['.'] + "qin"| :: !IsAsciiUpper(("lu" + ['.'] + "qin")[i])
    ensures forall i :: 0 <= i < |"lu"| ==> "lu"[i] !in Separators
    ensures forall i :: 0 <= i < |"qin"| ==> "qin"[i] !in Separators
  {
  }

  lemma LuPieces()
    ensures "lu" + ['.'] + "qin" + "@" + "x.com" == "lu.qin@x.com"
  {
  }

  lemma LuDrop()
    ensures !Keep("lu")
  {
  }

  lemma DocLu()
    ensures ExtractName("lu.qin@x.com") == ""
  {
    LuChars();
    LuDrop();
    LuPieces();
    FirstDropped("lu", '.', "qin", "x.com");
  }

  lemma CchenChars()
    ensures '@' !in "cchen151"
    ensures forall i | 0 <= i < |"cchen151"| :: !IsAsciiUpper("cchen151"[i])
    ensures forall i :: 0 <= i < |"cchen151"| ==> "cchen151"[i] !in Separators
    ensures "cchen151" + "@" + "x.com" == "cchen151@x.com"
  {
  }

  lemma DocCchen()
    ensures ExtractName("cchen151@x.com") == ""
  {
    CchenChars();
    OnePiece("cchen151", "x.com");
  }

  lemma DigitsChars()
    ensures '@' !in "21831010"
    ensures forall i | 0 <= i < |"21831010"| :: !IsAsciiUpper("21831010"[i])
    ensures forall i :: 0 <= i < |"21831010"| ==> "21831010"[i] !in Separators
    ensures "21831010" + "@" + "x.com" == "21831010@x.com"
  {
  }

  lemma DocDigits()
    ensures ExtractName("21831010@x.com") == ""
  {
    DigitsChars();
    OnePiece("21831010", "x.com");
  }

  lemma JcbChars()
    ensures '@' !in "jcb"
    ensures forall i | 0 <= i < |"jcb"| :: !IsAsciiUpper("jcb"[i])
    ensures forall i :: 0 <= i < |"jcb"| ==> "jcb"[i] !in Separators
    ensures "jcb" + "@" + "x.com" == "jcb@x.com"
  {
  }

  lemma DocJcb()
    ensures ExtractName("jcb@x.com") == ""
  {
    JcbChars();
    OnePiece("jcb", "x.com");
  }

  lemma GuohaoChars()
    ensures '@' !in "guohao"
    ensures forall i | 0 <= i < |"guohao"| :: !IsAsciiUpper("guohao"[i])
    ensures forall i :: 0 <= i < |"guohao"| ==> "guohao"[i] !in Separators
    ensures "guohao" + "@" + "x.com" == "guohao@x.com"
  {
  }

  lemma DocGuohao()
    ensures ExtractName("guohao@x.com") == ""
  {
    GuohaoChars();
    OnePiece("guohao", "x.com");
  }

  lemma ErrolfChars()
    ensures '@' !in "errolf"
    ensures forall i | 0 <= i < |"errolf"| :: !IsAsciiUpper("errolf"[i])
    ensures forall i :: 0 <= i < |"errolf"| ==> "errolf"[i] !in Separators
    ensures "errolf" + "@" + "x.com" == "errolf@x.com"
  {
  }

  lemma DocErrolf()
    ensures ExtractName("errolf@x.com") == ""
  {
    ErrolfChars();
    OnePiece("errolf", "x.com");
  }

  /**
    The examples of main.py:76-85 as the code computes them. The comment
    promises "Binyuan" for binyuan.hby and "Lu Qin" for lu.qin, but a piece
    of three characters survives and one of two does not.
  */
  lemma DocExamples()
    ensures ExtractName("mohammad.ghadri@x.com") == "Mohammad Ghadri"
    ensures ExtractName("sana.syed@x.com") == "Sana Syed"
    ensures ExtractName("binyuan.hby@x.com") == "Binyuan Hby"
    ensures ExtractName("lu.qin@x.com") == ""
    ensures ExtractName("cchen151@x.com") == ""
    ensures ExtractName("21831010@x.com") == ""
    ensures ExtractName("jcb@x.com") == ""
    ensures ExtractName("guohao@x.com") == ""
    ensures ExtractName("errolf@x.com") == ""
  {
    DocMohammad();
    DocSana();
    DocBinyuan();
    DocLu();
    DocCchen();
    DocDigits();
    DocJcb();
    DocGuohao();
    DocErrolf();
  }
}
