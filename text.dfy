/**
  String primitives shared by the cleaning and name-inference code: the
  character classes behind Python's `re` patterns and `str` methods (`\w`,
  `\s`, `isdigit`), case mapping, splitting on separator characters, joining,
  stripping and substring tests.

  Character classes are modelled on ASCII, with one widening so that names
  such as "Søgaard" behave as in Python: every non-ASCII character that is
  not whitespace counts as a word character.
*/
module Text {

  /** The characters for which Python's `str.isspace()` holds. */
  const Whitespace: set<char> := {
    ' ', '\t', '\n', '\U{0B}', '\U{0C}', '\r',
    '\U{1C}', '\U{1D}', '\U{1E}', '\U{1F}', '\U{85}', '\U{A0}', '\U{1680}',
    '\U{2000}', '\U{2001}', '\U{2002}', '\U{2003}', '\U{2004}', '\U{2005}',
    '\U{2006}', '\U{2007}', '\U{2008}', '\U{2009}', '\U{200A}',
    '\U{2028}', '\U{2029}', '\U{202F}', '\U{205F}', '\U{3000}'
  }

  predicate IsSpace(c: char) {
    c in Whitespace
  }

  /** `str.isdigit()` on one character (ASCII digits only). */
  predicate IsDigit(c: char) {
    '0' <= c <= '9'
  }

  predicate IsAsciiUpper(c: char) {
    'A' <= c <= 'Z'
  }

  predicate IsAsciiLower(c: char) {
    'a' <= c <= 'z'
  }

  /** Python's `\w` (see the module note). */
  predicate IsWordChar(c: char) {
    IsAsciiLower(c) || IsAsciiUpper(c) || IsDigit(c) || c == '_'
    || (c > '\U{7F}' && !IsSpace(c))
  }

  /** `any(c.isdigit() for c in s)` */
  predicate HasDigit(s: string) {
    s != [] && (IsDigit(s[0]) || HasDigit(s[1..]))
  }

  /** `s.isdigit()`: non-empty and digits only. */
  predicate AllDigits(s: string) {
    s != [] && IsDigit(s[0]) && (|s| == 1 || AllDigits(s[1..]))
  }

  function ToLower(c: char): (d: char)
    ensures IsAsciiUpper(c) ==> IsAsciiLower(d)
    ensures !IsAsciiUpper(c) ==> d == c
  {
    if IsAsciiUpper(c) then (c as int + 32) as char else c
  }

  function ToUpper(c: char): (d: char)
    ensures IsAsciiLower(c) ==> IsAsciiUpper(d)
    ensures !IsAsciiLower(c) ==> d == c
  {
    if IsAsciiLower(c) then (c as int - 32) as char else c
  }

  /** `str.lower()` */
  function Lower(s: string): (r: string)
    ensures |r| == |s|
  {
    if s == [] then [] else [ToLower(s[0])] + Lower(s[1..])
  }

  /** `str.capitalize()`: the first character in upper case, the rest in lower case. */
  function Capitalize(s: string): (r: string)
    ensures |r| == |s|
  {
    if s == [] then [] else [ToUpper(s[0])] + Lower(s[1..])
  }

  /**
    Cuts `s` at every character of `seps`: `re.split` over a character class,
    or `str.split(c)` for one separator. There is always one piece more than
    there are separators, and empty pieces are kept.
  */
  function Split(s: string, seps: set<char>): (parts: seq<string>)
    ensures |parts| >= 1
  {
    if s == [] then [""]
    else
      var rest := Split(s[1..], seps);
      if s[0] in seps then [""] + rest
      else [[s[0]] + rest[0]] + rest[1..]
  }

  /** `sep.join(parts)` */
  function Join(parts: seq<string>, sep: string): string {
    if parts == [] then ""
    else if |parts| == 1 then parts[0]
    else parts[0] + sep + Join(parts[1..], sep)
  }

  /** `[p for p in parts if p]` */
  function NonEmpty(parts: seq<string>): seq<string> {
    if parts == [] then []
    else if parts[0] == "" then NonEmpty(parts[1..])
    else [parts[0]] + NonEmpty(parts[1..])
  }

  /** `s.split()` with no argument: the maximal runs of non-whitespace. */
  function Words(s: string): seq<string> {
    NonEmpty(Split(s, Whitespace))
  }

  /** `" ".join(s.split())` */
  function Collapse(s: string): string {
    Join(Words(s), " ")
  }

  function TrimStart(s: string): (r: string)
    ensures |r| <= |s| && r == s[|s| - |r|..]
    ensures r == [] || !IsSpace(r[0])
    ensures forall i :: 0 <= i < |s| - |r| ==> IsSpace(s[i])
  {
    if s != [] && IsSpace(s[0]) then
      var r := TrimStart(s[1..]);
      assert forall i :: 1 <= i < |s| ==> s[i] == s[1..][i - 1];
      r
    else s
  }

  function TrimEnd(s: string): (r: string)
    ensures |r| <= |s| && r == s[..|r|]
    ensures r == [] || !IsSpace(r[|r| - 1])
    ensures forall i :: |r| <= i < |s| ==> IsSpace(s[i])
  {
    if s != [] && IsSpace(s[|s| - 1]) then
      var r := TrimEnd(s[..|s| - 1]);
      assert forall i :: 0 <= i < |s| - 1 ==> s[i] == s[..|s| - 1][i];
      r
    else s
  }

  /** `str.strip()` */
  function Strip(s: string): string {
    TrimEnd(TrimStart(s))
  }

  /** `re.sub("[...]", "", s)` for a class of single characters. */
  function RemoveChars(s: string, drop: set<char>): (r: string)
    ensures |r| <= |s|
    ensures forall i :: 0 <= i < |r| ==> r[i] !in drop && r[i] in s
  {
    if s == [] then []
    else if s[0] in drop then RemoveChars(s[1..], drop)
    else [s[0]] + RemoveChars(s[1..], drop)
  }

  /** `s.startswith(p)` */
  predicate IsPrefix(p: string, s: string) {
    p == [] || (s != [] && p[0] == s[0] && IsPrefix(p[1..], s[1..]))
  }

  /** `s.endswith(p)` */
  predicate IsSuffix(p: string, s: string) {
    |p| <= |s| && IsPrefix(p, s[|s| - |p|..])
  }

  /** Python's `sub in s` on strings. */
  predicate Contains(s: string, sub: string) {
    IsPrefix(sub, s) || (s != [] && Contains(s[1..], sub))
  }

  /** The number of occurrences of `c` in `s`. */
  function Count(s: string, c: char): nat {
    if s == [] then 0 else (if s[0] == c then 1 else 0) + Count(s[1..], c)
  }

  /** `email.split("@")[0]`: the text before the first '@' (all of it when there is none). */
  function LocalPart(email: string): string {
    email[..IndexOf(email, '@')]
  }

  /** `email.split("@")[0].lower()`: the lower-cased local part. */
  function Username(email: string): (u: string)
    ensures |u| == |LocalPart(email)|
  {
    Lower(LocalPart(email))
  }

  /** The index of the first `c` in `s`, or `|s|` when there is none. */
  function IndexOf(s: string, c: char): (r: nat)
    ensures r <= |s|
    ensures r < |s| ==> s[r] == c
    ensures forall j :: 0 <= j < r ==> s[j] != c
  {
    if s == [] then 0
    else if s[0] == c then 0
    else 1 + IndexOf(s[1..], c)
  }

  /** The index of the last `c` in `s`, or -1 when there is none. */
  function LastIndexOf(s: string, c: char): (r: int)
    ensures -1 <= r < |s|
    ensures r >= 0 ==> s[r] == c
    ensures forall j :: r < j < |s| ==> s[j] != c
  {
    if s == [] then -1
    else if s[|s| - 1] == c then |s| - 1
    else LastIndexOf(s[..|s| - 1], c)
  }

  // ---------------------------------------------------------------------
  // Facts about the primitives
  // ---------------------------------------------------------------------

  lemma {:induction false} PrefixIff(p: string, s: string)
    ensures IsPrefix(p, s) <==> |p| <= |s| && s[..|p|] == p
  {
    if p != [] && s != [] {
      PrefixIff(p[1..], s[1..]);
      if |p| <= |s| && s[..|p|] == p {
        assert s[1..][..|p| - 1] == p[1..];
      }
      if IsPrefix(p, s) {
        assert s[..|p|] == [s[0]] + s[1..][..|p| - 1];
      }
    }
  }

  lemma SuffixIff(p: string, s: string)
    ensures IsSuffix(p, s) <==> |p| <= |s| && s[|s| - |p|..] == p
  {
    if |p| <= |s| {
      PrefixIff(p, s[|s| - |p|..]);
    }
  }

  lemma {:induction false} ContainsAt(s: string, sub: string, i: nat)
    requires i + |sub| <= |s| && s[i..i + |sub|] == sub
    ensures Contains(s, sub)
  {
    if i == 0 {
      PrefixIff(sub, s);
    } else {
      assert s[1..][i - 1..i - 1 + |sub|] == sub;
      ContainsAt(s[1..], sub, i - 1);
    }
  }

  lemma {:induction false} ContainsWitness(s: string, sub: string) returns (i: nat)
    requires Contains(s, sub)
    ensures i + |sub| <= |s| && s[i..i + |sub|] == sub
  {
    if IsPrefix(sub, s) {
      PrefixIff(sub, s);
      i := 0;
    } else {
      var j := ContainsWitness(s[1..], sub);
      assert s[1..][j..j + |sub|] == s[j + 1..j + 1 + |sub|];
      i := j + 1;
    }
  }

  /** A text none of whose suffixes starts with `sub` does not contain it. */
  lemma {:induction false} NoOccurrence(s: string, sub: string)
    requires forall i :: 0 <= i <= |s| ==> !IsPrefix(sub, s[i..])
    ensures !Contains(s, sub)
  {
    assert s[0..] == s;
    if s != [] {
      forall j | 0 <= j <= |s[1..]| ensures !IsPrefix(sub, s[1..][j..]) {
        assert s[1..][j..] == s[j + 1..];
      }
      NoOccurrence(s[1..], sub);
    }
  }

  lemma ContainsMiddle(p: string, w: string, q: string)
    ensures Contains(p + w + q, w)
  {
    assert (p + w + q)[|p|..|p| + |w|] == w;
    ContainsAt(p + w + q, w, |p|);
  }

  lemma {:induction false} LowerAppend(a: string, b: string)
    ensures Lower(a + b) == Lower(a) + Lower(b)
  {
    if a == [] {
      assert a + b == b;
    } else {
      assert (a + b)[0] == a[0] && (a + b)[1..] == a[1..] + b;
      LowerAppend(a[1..], b);
    }
  }

  lemma {:induction false} LowerAt(s: string, i: nat)
    requires i < |s|
    ensures Lower(s)[i] == ToLower(s[i])
  {
    if i > 0 {
      LowerAt(s[1..], i - 1);
    }
  }

  /** A string without upper-case ASCII letters is its own lower-case form. */
  /** `Lower(s)` is `t` when `t` is `s` lower-cased character by character. */
  lemma LowerByChars(s: string, t: string)
    requires |s| == |t| && forall i :: 0 <= i < |s| ==> ToLower(s[i]) == t[i]
    ensures Lower(s) == t
  {
    forall i | 0 <= i < |s| ensures Lower(s)[i] == t[i] {
      LowerAt(s, i);
    }
  }

  lemma LowerOfLower(s: string)
    requires forall i | 0 <= i < |s| :: !IsAsciiUpper(s[i])
    ensures Lower(s) == s
  {
    forall i | 0 <= i < |s| ensures Lower(s)[i] == s[i] {
      LowerAt(s, i);
    }
  }

  lemma {:induction false} HasDigitIff(s: string)
    ensures HasDigit(s) <==> exists i :: 0 <= i < |s| && IsDigit(s[i])
  {
    if s != [] {
      HasDigitIff(s[1..]);
      if exists i :: 0 <= i < |s| && IsDigit(s[i]) {
        var i :| 0 <= i < |s| && IsDigit(s[i]);
        if i > 0 {
          assert IsDigit(s[1..][i - 1]);
        }
      }
      if HasDigit(s[1..]) {
        var i :| 0 <= i < |s[1..]| && IsDigit(s[1..][i]);
        assert IsDigit(s[i + 1]);
      }
    }
  }

  /** Lower-casing neither creates nor removes digits. */
  lemma LowerKeepsDigits(s: string)
    ensures HasDigit(Lower(s)) <==> HasDigit(s)
  {
    HasDigitIff(s);
    HasDigitIff(Lower(s));
    forall i | 0 <= i < |s|
      ensures IsDigit(Lower(s)[i]) <==> IsDigit(s[i])
    {
      LowerAt(s, i);
    }
  }

  /** A character of `seps` never ends up inside a piece. */
  lemma {:induction false} SplitPiecesAvoid(s: string, seps: set<char>, k: nat, i: nat)
    requires k < |Split(s, seps)| && i < |Split(s, seps)[k]|
    ensures Split(s, seps)[k][i] !in seps
    ensures Split(s, seps)[k][i] in s
  {
    if s != [] {
      var rest := Split(s[1..], seps);
      if s[0] in seps {
        if k > 0 {
          SplitPiecesAvoid(s[1..], seps, k - 1, i);
        }
      } else if k > 0 {
        SplitPiecesAvoid(s[1..], seps, k, i);
      } else if i > 0 {
        SplitPiecesAvoid(s[1..], seps, 0, i - 1);
      }
    }
  }

  lemma {:induction false} SplitNoSep(a: string, seps: set<char>)
    requires forall i :: 0 <= i < |a| ==> a[i] !in seps
    ensures Split(a, seps) == [a]
  {
    if a != [] {
      SplitNoSep(a[1..], seps);
      assert [a[0]] + a[1..] == a;
    }
  }

  /** Splitting distributes over a separator: the pieces of `a`, then those of `b`. */
  lemma {:induction false} SplitAppendSep(a: string, c: char, b: string, seps: set<char>)
    requires c in seps
    ensures Split(a + [c] + b, seps) == Split(a, seps) + Split(b, seps)
  {
    if a == [] {
      assert a + [c] + b == [c] + b;
      assert ([c] + b)[1..] == b;
    } else {
      assert (a + [c] + b)[1..] == a[1..] + [c] + b;
      SplitAppendSep(a[1..], c, b, seps);
    }
  }

  /** Joining sep-free pieces and splitting again gives the pieces back. */
  lemma {:induction false} SplitJoin(parts: seq<string>, c: char, seps: set<char>)
    requires c in seps && |parts| >= 1
    requires forall k, i :: 0 <= k < |parts| && 0 <= i < |parts[k]| ==> parts[k][i] !in seps
    ensures Split(Join(parts, [c]), seps) == parts
  {
    SplitNoSep(parts[0], seps);
    if |parts| > 1 {
      SplitJoin(parts[1..], c, seps);
      SplitAppendSep(parts[0], c, Join(parts[1..], [c]), seps);
      assert Join(parts, [c]) == parts[0] + [c] + Join(parts[1..], [c]);
      assert parts == [parts[0]] + parts[1..];
    }
  }

  /** Splitting and joining with the same single separator gives the text back. */
  lemma {:induction false} JoinSplit(s: string, c: char)
    ensures Join(Split(s, {c}), [c]) == s
  {
    if s != [] {
      JoinSplit(s[1..], c);
      var rest := Split(s[1..], {c});
      if s[0] == c {
        assert Split(s, {c}) == [""] + rest;
        assert ([""] + rest)[1..] == rest;
      } else {
        assert Split(s, {c}) == [[s[0]] + rest[0]] + rest[1..];
        if |rest| > 1 {
          assert Join(rest, [c]) == rest[0] + [c] + Join(rest[1..], [c]);
          assert ([[s[0]] + rest[0]] + rest[1..])[1..] == rest[1..];
        }
      }
    }
  }

  /** There is one piece more than there are separators. */
  lemma {:induction false} SplitCount(s: string, c: char)
    ensures |Split(s, {c})| == Count(s, c) + 1
  {
    if s != [] {
      SplitCount(s[1..], c);
    }
  }

  /** The first piece is the text before the first separator. */
  lemma {:induction false} SplitFirstPiece(s: string, seps: set<char>, i: nat)
    requires i <= |s|
    requires forall j :: 0 <= j < i ==> s[j] !in seps
    requires i == |s| || s[i] in seps
    ensures Split(s, seps)[0] == s[..i]
    ensures i < |s| ==> Split(s, seps)[1..] == Split(s[i + 1..], seps)
  {
    if i < |s| {
      assert s == s[..i] + [s[i]] + s[i + 1..];
      SplitAppendSep(s[..i], s[i], s[i + 1..], seps);
      SplitNoSep(s[..i], seps);
    } else {
      assert s[..i] == s;
      SplitNoSep(s, seps);
    }
  }

  lemma LocalPartOf(local: string, rest: string)
    requires '@' !in local
    ensures LocalPart(local + "@" + rest) == local
  {
    var s := local + "@" + rest;
    assert s[|local|] == '@';
    assert forall j :: 0 <= j < |local| ==> s[j] == local[j];
    assert s[..|local|] == local;
  }

  /** The local part of a local part is itself. */
  lemma LocalPartIdempotent(email: string)
    ensures LocalPart(LocalPart(email)) == LocalPart(email)
  {
    var l := LocalPart(email);
    assert forall j :: 0 <= j < |l| ==> l[j] == email[j];
  }

  lemma {:induction false} NonEmptyAll(parts: seq<string>)
    requires forall k :: 0 <= k < |parts| ==> parts[k] != ""
    ensures NonEmpty(parts) == parts
  {
    if parts != [] {
      NonEmptyAll(parts[1..]);
    }
  }

  lemma {:induction false} NonEmptyPieces(parts: seq<string>, k: nat)
    requires k < |NonEmpty(parts)|
    ensures NonEmpty(parts)[k] != "" && NonEmpty(parts)[k] in parts
  {
    if parts[0] == "" {
      NonEmptyPieces(parts[1..], k);
    } else if k > 0 {
      NonEmptyPieces(parts[1..], k - 1);
    }
  }

  /** The words of `s` are non-empty and free of whitespace. */
  lemma WordsShape(s: string, k: nat)
    requires k < |Words(s)|
    ensures Words(s)[k] != ""
    ensures forall i :: 0 <= i < |Words(s)[k]| ==> !IsSpace(Words(s)[k][i])
  {
    var parts := Split(s, Whitespace);
    NonEmptyPieces(parts, k);
    var j :| 0 <= j < |parts| && parts[j] == Words(s)[k];
    forall i | 0 <= i < |parts[j]| ensures !IsSpace(parts[j][i]) {
      SplitPiecesAvoid(s, Whitespace, j, i);
    }
  }

  /** The words of a collapsed text are the words of the text. */
  lemma WordsOfCollapse(s: string)
    ensures Words(Collapse(s)) == Words(s)
  {
    var ws := Words(s);
    if ws == [] {
      assert Collapse(s) == "";
      assert Split("", Whitespace) == [""];
      assert [""][1..] == [];
      assert NonEmpty([""]) == [];
    } else {
      forall k, i | 0 <= k < |ws| && 0 <= i < |ws[k]| ensures ws[k][i] !in Whitespace {
        WordsShape(s, k);
      }
      forall k | 0 <= k < |ws| ensures ws[k] != "" {
        WordsShape(s, k);
      }
      SplitJoin(ws, ' ', Whitespace);
      NonEmptyAll(ws);
    }
  }

  /** Collapsing whitespace twice is collapsing it once. */
  lemma CollapseIdempotent(s: string)
    ensures Collapse(Collapse(s)) == Collapse(s)
  {
    WordsOfCollapse(s);
  }

  /** The only whitespace a joined text holds is the separator's. */
  lemma {:induction false} JoinSpaces(parts: seq<string>, i: nat)
    requires forall k, j :: 0 <= k < |parts| && 0 <= j < |parts[k]| ==> !IsSpace(parts[k][j])
    requires i < |Join(parts, " ")|
    ensures IsSpace(Join(parts, " ")[i]) ==> Join(parts, " ")[i] == ' '
  {
    if |parts| > 1 {
      var tail := Join(parts[1..], " ");
      assert Join(parts, " ") == parts[0] + " " + tail;
      if i > |parts[0]| {
        JoinSpaces(parts[1..], i - |parts[0]| - 1);
        assert Join(parts, " ")[i] == tail[i - |parts[0]| - 1];
      }
    }
  }

  /** After collapsing, every whitespace character left is a plain space. */
  lemma CollapseSpaces(s: string, i: nat)
    requires i < |Collapse(s)|
    ensures IsSpace(Collapse(s)[i]) ==> Collapse(s)[i] == ' '
  {
    forall k, j | 0 <= k < |Words(s)| && 0 <= j < |Words(s)[k]| ensures !IsSpace(Words(s)[k][j]) {
      WordsShape(s, k);
    }
    JoinSpaces(Words(s), i);
  }

  /** A collapsed text neither starts nor ends with whitespace. */
  lemma CollapseEnds(s: string)
    ensures Collapse(s) != [] ==> !IsSpace(Collapse(s)[0]) && !IsSpace(Collapse(s)[|Collapse(s)| - 1])
  {
    var ws := Words(s);
    if ws != [] {
      WordsShape(s, 0);
      WordsShape(s, |ws| - 1);
      forall k | 0 <= k < |ws| ensures ws[k] != "" {
        WordsShape(s, k);
      }
      JoinEnds(ws);
    }
  }

  lemma {:induction false} JoinEnds(ws: seq<string>)
    requires |ws| >= 1 && forall k :: 0 <= k < |ws| ==> ws[k] != ""
    ensures |Join(ws, " ")| > 0
    ensures Join(ws, " ")[0] == ws[0][0]
    ensures Join(ws, " ")[|Join(ws, " ")| - 1] == ws[|ws| - 1][|ws[|ws| - 1]| - 1]
  {
    if |ws| > 1 {
      JoinEnds(ws[1..]);
    }
  }

  lemma StripNoEdges(s: string)
    requires s == [] || (!IsSpace(s[0]) && !IsSpace(s[|s| - 1]))
    ensures Strip(s) == s
  {
  }

  lemma LastIndexOfIs(s: string, c: char, p: nat)
    requires p < |s| && s[p] == c
    requires forall j :: p < j < |s| ==> s[j] != c
    ensures LastIndexOf(s, c) == p
  {
  }

  /** Deleting characters the text does not hold leaves it unchanged. */
  lemma {:induction false} RemoveNothing(s: string, drop: set<char>)
    requires forall i :: 0 <= i < |s| ==> s[i] !in drop
    ensures RemoveChars(s, drop) == s
  {
    if s != [] {
      RemoveNothing(s[1..], drop);
    }
  }

  /** A string that contains `sub` holds every character of `sub`. */
  lemma ContainsHasChar(s: string, sub: string, k: nat)
    requires Contains(s, sub) && k < |sub|
    ensures sub[k] in s
  {
    var i := ContainsWitness(s, sub);
    assert s[i..i + |sub|][k] == s[i + k];
  }

  /** `str.lower()` is idempotent. */
  lemma LowerIdempotent(s: string)
    ensures Lower(Lower(s)) == Lower(s)
  {
    forall i | 0 <= i < |s| ensures !IsAsciiUpper(Lower(s)[i]) {
      LowerAt(s, i);
    }
    LowerOfLower(Lower(s));
  }

  /** The local part is the text before the first '@'. */
  lemma LocalPartIsPrefix(email: string)
    ensures LocalPart(email) == Split(email, {'@'})[0]
  {
    SplitFirstPiece(email, {'@'}, IndexOf(email, '@'));
  }

  /** Lower-casing and taking the local part commute, as '@' has no case. */
  lemma LowerLocalPart(email: string)
    ensures LocalPart(Lower(email)) == Lower(LocalPart(email))
  {
    var i := IndexOf(email, '@');
    var l := Lower(email);
    forall j | 0 <= j < i ensures l[j] !in {'@'} {
      LowerAt(email, j);
    }
    if i < |email| {
      LowerAt(email, i);
    }
    SplitFirstPiece(l, {'@'}, i);
    LocalPartIsPrefix(email);
    assert email == email[..i] + email[i..];
    LowerAppend(email[..i], email[i..]);
    assert l[..i] == Lower(email[..i]);
  }

  /** A word holding a character the text lacks is not inside the text. */
  lemma LacksChar(s: string, w: string, i: nat)
    requires i < |w| && w[i] !in s
    ensures !Contains(s, w)
  {
    if Contains(s, w) {
      ContainsHasChar(s, w, i);
    }
  }
}
