/**
  The placeholder filter `is_junk_email` of simple_test.py: an email is junk
  when it is empty, or when its lower-cased local part contains a block word,
  carries "name" as a dotted label, starts with a webmail domain, or is
  longer than 50 characters.
*/
module JunkFilter {
  import opened Text

  /** The block words, in the order of simple_test.py:13-20. */
  const BlockWords: seq<string> := [
    "correspondence", "pleasesend", "workconducted", "workdone",
    "writtenwhile", "interning", "currentaddress", "author",
    "reprint", "address", "published", "submitted", "preprint",
    "firstname", "lastname", "surname", "secondname",
    "yourname", "username", "user.name", "example",
    "email", "contact", "domain", "here"
  ]

  /** The longest local part that is not junk on length alone. */
  const MaxLocalLength: nat := 50

  /** `any(word in l for word in block_words)` */
  predicate HasBlockWord(l: string) {
    exists k :: 0 <= k < |BlockWords| && Contains(l, BlockWords[k])
  }

  /** "name" as the first, the last or an inner dotted label. */
  predicate NameLabel(l: string) {
    IsPrefix("name.", l) || IsSuffix(".name", l) || Contains(l, ".name.")
  }

  /** A local part that begins with a webmail domain: a scraping error. */
  predicate WebmailStart(l: string) {
    IsPrefix("gmail.com", l) || IsPrefix("yahoo.com", l) || IsPrefix("hotmail.com", l)
  }

  /** simple_test.py `is_junk_email` */
  predicate IsJunkEmail(email: string) {
    if email == "" then true
    else
      var l := Username(email);
      if HasBlockWord(l) then true
      else if NameLabel(l) then true
      else if WebmailStart(l) then true
      else |l| > MaxLocalLength
  }

  // ---------------------------------------------------------------------
  // Properties
  // ---------------------------------------------------------------------

  /** Any block word, in any case, inside the local part makes the email junk. */
  lemma BlockWordIsJunk(email: string, k: nat)
    requires k < |BlockWords| && Contains(Username(email), BlockWords[k])
    ensures IsJunkEmail(email)
  {
  }

  /** An email that is not junk has a short local part free of every block word. */
  lemma NotJunkIsClean(email: string)
    requires !IsJunkEmail(email)
    ensures email != "" && |LocalPart(email)| <= MaxLocalLength
    ensures forall k :: 0 <= k < |BlockWords| ==> !Contains(Username(email), BlockWords[k])
    ensures !NameLabel(Username(email)) && !WebmailStart(Username(email))
  {
  }

  /** The domain plays no part: only the text before the first '@' is read. */
  lemma JunkIgnoresDomain(local: string, d1: string, d2: string)
    requires '@' !in local
    ensures IsJunkEmail(local + "@" + d1) == IsJunkEmail(local + "@" + d2)
  {
    LocalPartOf(local, d1);
    LocalPartOf(local, d2);
  }

  /** Case does not matter anywhere in the email. */
  lemma JunkIgnoresCase(email: string)
    ensures IsJunkEmail(Lower(email)) == IsJunkEmail(email)
  {
    LowerLocalPart(email);
    LowerIdempotent(LocalPart(email));
  }

  // ---------------------------------------------------------------------
  // The test data of simple_test.py:101-117 and test_filters.py:16-21.
  // Each fact about a literal string is proved on its own, then combined.
  // ---------------------------------------------------------------------

  /** The local part of `local + "@" + domain`, lower-cased, when `local` is. */
  lemma LowerLocal(local: string, domain: string)
    requires '@' !in local
    requires forall i | 0 <= i < |local| :: !IsAsciiUpper(local[i])
    ensures Username(local + "@" + domain) == local
  {
    LocalPartOf(local, domain);
    LowerOfLower(local);
  }

  /** A block word with neither '@' nor capitals. */
  predicate PlainWord(k: nat) {
    k < |BlockWords| && '@' !in BlockWords[k]
    && forall i | 0 <= i < |BlockWords[k]| :: !IsAsciiUpper(BlockWords[k][i])
  }

  /** `p + w + q` is junk, whatever the domain, when the block word `w` sits in it. */
  lemma WordInside(p: string, k: nat, q: string, domain: string)
    requires PlainWord(k) && '@' !in p && '@' !in q
    ensures IsJunkEmail(p + BlockWords[k] + q + "@" + domain)
  {
    var w := BlockWords[k];
    var email := p + w + q + "@" + domain;
    assert '@' !in p + w + q;
    LocalPartOf(p + w + q, domain);
    LowerAppend(p + w, q);
    LowerAppend(p, w);
    LowerOfLower(w);
    ContainsMiddle(Lower(p), w, Lower(q));
    BlockWordIsJunk(email, k);
  }

  lemma PlainWord0()
    ensures PlainWord(0) && BlockWords[0] == "correspondence"
  {
  }

  lemma PlainWord7()
    ensures PlainWord(7) && BlockWords[7] == "author"
  {
  }

  lemma PlainWord13()
    ensures PlainWord(13) && BlockWords[13] == "firstname"
  {
  }

  lemma PlainWord15()
    ensures PlainWord(15) && BlockWords[15] == "surname"
  {
  }

  lemma ApolloJoin1()
    ensures "ApolloResearch.Email" + "correspondence" == "ApolloResearch.Emailcorrespondence"
  {
  }

  lemma ApolloJoin2()
    ensures "ApolloResearch.Emailcorrespondence" + "tomarius" == "ApolloResearch.Emailcorrespondencetomarius"
  {
  }

  lemma ApolloJoin3()
    ensures "ApolloResearch.Emailcorrespondencetomarius" + "@" + "apolloresearch.ai" == "ApolloResearch.Emailcorrespondencetomarius@apolloresearch.ai"
  {
  }

  /** The email, in the pieces `WordInside` takes. */
  lemma ApolloPieces()
    ensures "ApolloResearch.Email" + "correspondence" + "tomarius" + "@" + "apolloresearch.ai" == "ApolloResearch.Emailcorrespondencetomarius@apolloresearch.ai"
  {
    ApolloJoin1();
    ApolloJoin2();
    ApolloJoin3();
  }

  lemma ApolloNoAt()
    ensures '@' !in "ApolloResearch.Email" && '@' !in "tomarius"
  {
  }

  lemma BadApollo()
    ensures IsJunkEmail("ApolloResearch.Emailcorrespondencetomarius@apolloresearch.ai")
  {
    ApolloPieces();
    ApolloNoAt();
    PlainWord0();
    WordInside("ApolloResearch.Email", 0, "tomarius", "apolloresearch.ai");
  }

  lemma OpenAIJoin1()
    ensures "OpenAI.Email" + "correspondence" == "OpenAI.Emailcorrespondence"
  {
  }

  lemma OpenAIJoin2()
    ensures "OpenAI.Emailcorrespondence" + "tojenny" == "OpenAI.Emailcorrespondencetojenny"
  {
  }

  lemma OpenAIJoin3()
    ensures "OpenAI.Emailcorrespondencetojenny" + "@" + "openai.com" == "OpenAI.Emailcorrespondencetojenny@openai.com"
  {
  }

  /** The email, in the pieces `WordInside` takes. */
  lemma OpenAIPieces()
    ensures "OpenAI.Email" + "correspondence" + "tojenny" + "@" + "openai.com" == "OpenAI.Emailcorrespondencetojenny@openai.com"
  {
    OpenAIJoin1();
    OpenAIJoin2();
    OpenAIJoin3();
  }

  lemma OpenAINoAt()
    ensures '@' !in "OpenAI.Email" && '@' !in "tojenny"
  {
  }

  lemma BadOpenAI()
    ensures IsJunkEmail("OpenAI.Emailcorrespondencetojenny@openai.com")
  {
    OpenAIPieces();
    OpenAINoAt();
    PlainWord0();
    WordInside("OpenAI.Email", 0, "tojenny", "openai.com");
  }

  lemma PleaseSendJoin1()
    ensures "Pleasesend" + "correspondence" == "Pleasesendcorrespondence"
  {
  }

  lemma PleaseSendJoin2()
    ensures "Pleasesendcorrespondence" + "togemini-report" == "Pleasesendcorrespondencetogemini-report"
  {
  }

  lemma PleaseSendJoin3()
    ensures "Pleasesendcorrespondencetogemini-report" + "@" + "google.com" == "Pleasesendcorrespondencetogemini-report@google.com"
  {
  }

  /** The email, in the pieces `WordInside` takes. */
  lemma PleaseSendPieces()
    ensures "Pleasesend" + "correspondence" + "togemini-report" + "@" + "google.com" == "Pleasesendcorrespondencetogemini-report@google.com"
  {
    PleaseSendJoin1();
    PleaseSendJoin2();
    PleaseSendJoin3();
  }

  lemma PleaseSendNoAt()
    ensures '@' !in "Pleasesend" && '@' !in "togemini-report"
  {
  }

  lemma BadPleaseSend()
    ensures IsJunkEmail("Pleasesendcorrespondencetogemini-report@google.com")
  {
    PleaseSendPieces();
    PleaseSendNoAt();
    PlainWord0();
    WordInside("Pleasesend", 0, "togemini-report", "google.com");
  }

  lemma WorkConductedJoin1()
    ensures "Workconductedwhilethefirst" + "author" == "Workconductedwhilethefirstauthor"
  {
  }

  lemma WorkConductedJoin2()
    ensures "Workconductedwhilethefirstauthor" + "wasanintern" == "Workconductedwhilethefirstauthorwasanintern"
  {
  }

  lemma WorkConductedJoin3()
    ensures "Workconductedwhilethefirstauthorwasanintern" + "@" + "Booking.com" == "Workconductedwhilethefirstauthorwasanintern@Booking.com"
  {
  }

  /** The email, in the pieces `WordInside` takes. */
  lemma WorkConductedPieces()
    ensures "Workconductedwhilethefirst" + "author" + "wasanintern" + "@" + "Booking.com" == "Workconductedwhilethefirstauthorwasanintern@Booking.com"
  {
    WorkConductedJoin1();
    WorkConductedJoin2();
    WorkConductedJoin3();
  }

  lemma WorkConductedNoAt()
    ensures '@' !in "Workconductedwhilethefirst" && '@' !in "wasanintern"
  {
  }

  lemma BadWorkConducted()
    ensures IsJunkEmail("Workconductedwhilethefirstauthorwasanintern@Booking.com")
  {
    WorkConductedPieces();
    WorkConductedNoAt();
    PlainWord7();
    WordInside("Workconductedwhilethefirst", 7, "wasanintern", "Booking.com");
  }

  lemma FirstLastJoin1()
    ensures "" + "firstname" == "firstname"
  {
  }

  lemma FirstLastJoin2()
    ensures "firstname" + ".lastname" == "firstname.lastname"
  {
  }

  lemma FirstLastJoin3()
    ensures "firstname.lastname" + "@" + "lne.fr" == "firstname.lastname@lne.fr"
  {
  }

  /** The email, in the pieces `WordInside` takes. */
  lemma FirstLastPieces()
    ensures "" + "firstname" + ".lastname" + "@" + "lne.fr" == "firstname.lastname@lne.fr"
  {
    FirstLastJoin1();
    FirstLastJoin2();
    FirstLastJoin3();
  }

  lemma FirstLastNoAt()
    ensures '@' !in "" && '@' !in ".lastname"
  {
  }

  lemma BadFirstLast()
    ensures IsJunkEmail("firstname.lastname@lne.fr")
  {
    FirstLastPieces();
    FirstLastNoAt();
    PlainWord13();
    WordInside("", 13, ".lastname", "lne.fr");
  }

  lemma FirstSecondJoin1()
    ensures "" + "firstname" == "firstname"
  {
  }

  lemma FirstSecondJoin2()
    ensures "firstname" + ".secondname" == "firstname.secondname"
  {
  }

  lemma FirstSecondJoin3()
    ensures "firstname.secondname" + "@" + "cl.cam.ac.uk" == "firstname.secondname@cl.cam.ac.uk"
  {
  }

  /** The email, in the pieces `WordInside` takes. */
  lemma FirstSecondPieces()
    ensures "" + "firstname" + ".secondname" + "@" + "cl.cam.ac.uk" == "firstname.secondname@cl.cam.ac.uk"
  {
    FirstSecondJoin1();
    FirstSecondJoin2();
    FirstSecondJoin3();
  }

  lemma FirstSecondNoAt()
    ensures '@' !in "" && '@' !in ".secondname"
  {
  }

  lemma BadFirstSecond()
    ensures IsJunkEmail("firstname.secondname@cl.cam.ac.uk")
  {
    FirstSecondPieces();
    FirstSecondNoAt();
    PlainWord13();
    WordInside("", 13, ".secondname", "cl.cam.ac.uk");
  }

  lemma NameSurnameJoin1()
    ensures "name." + "surname" == "name.surname"
  {
  }

  lemma NameSurnameJoin2()
    ensures "name.surname" + "" == "name.surname"
  {
  }

  lemma NameSurnameJoin3()
    ensures "name.surname" + "@" + "unibo.it" == "name.surname@unibo.it"
  {
  }

  /** The email, in the pieces `WordInside` takes. */
  lemma NameSurnamePieces()
    ensures "name." + "surname" + "" + "@" + "unibo.it" == "name.surname@unibo.it"
  {
    NameSurnameJoin1();
    NameSurnameJoin2();
    NameSurnameJoin3();
  }

  lemma NameSurnameNoAt()
    ensures '@' !in "name." && '@' !in ""
  {
  }

  lemma BadNameSurname()
    ensures IsJunkEmail("name.surname@unibo.it")
  {
    NameSurnamePieces();
    NameSurnameNoAt();
    PlainWord15();
    WordInside("name.", 15, "", "unibo.it");
  }

  lemma GermanyJoin1()
    ensures "Germany." + "firstname" == "Germany.firstname"
  {
  }

  lemma GermanyJoin2()
    ensures "Germany.firstname" + ".surname" == "Germany.firstname.surname"
  {
  }

  lemma GermanyJoin3()
    ensures "Germany.firstname.surname" + "@" + "tum.de" == "Germany.firstname.surname@tum.de"
  {
  }

  /** The email, in the pieces `WordInside` takes. */
  lemma GermanyPieces()
    ensures "Germany." + "firstname" + ".surname" + "@" + "tum.de" == "Germany.firstname.surname@tum.de"
  {
    GermanyJoin1();
    GermanyJoin2();
    GermanyJoin3();
  }

  lemma GermanyNoAt()
    ensures '@' !in "Germany." && '@' !in ".surname"
  {
  }

  lemma BadGermany()
    ensures IsJunkEmail("Germany.firstname.surname@tum.de")
  {
    GermanyPieces();
    GermanyNoAt();
    PlainWord13();
    WordInside("Germany.", 13, ".surname", "tum.de");
  }

  /** A local part that starts with a webmail domain, in any letter case, is junk. */
  lemma WebmailIsJunk(local: string, domain: string)
    requires '@' !in local
    requires WebmailStart(Lower(local))
    ensures IsJunkEmail(local + "@" + domain)
  {
    LocalPartOf(local, domain);
  }

  lemma GmailFacts()
    ensures '@' !in "gmail.comnatsuhadder001"
    ensures forall i | 0 <= i < |"gmail.comnatsuhadder001"| :: !IsAsciiUpper("gmail.comnatsuhadder001"[i])
    ensures "gmail.comnatsuhadder001" + "@" + "gmail.com" == "gmail.comnatsuhadder001@gmail.com"
  {
  }

  lemma GmailPrefix()
    ensures IsPrefix("gmail.com", "gmail.comnatsuhadder001")
  {
    assert "gmail.comnatsuhadder001"[..9] == "gmail.com";
    PrefixIff("gmail.com", "gmail.comnatsuhadder001");
  }

  /** Caught by the webmail rule: no block word occurs in it. */
  lemma BadGmail()
    ensures IsJunkEmail("gmail.comnatsuhadder001@gmail.com")
  {
    GmailFacts();
    GmailPrefix();
    LowerOfLower("gmail.comnatsuhadder001");
    WebmailIsJunk("gmail.comnatsuhadder001", "gmail.com");
  }

  /** All nine emails of `bad_emails` are junk. */
  lemma BadEmailsAreJunk()
    ensures IsJunkEmail("ApolloResearch.Emailcorrespondencetomarius@apolloresearch.ai")
    ensures IsJunkEmail("OpenAI.Emailcorrespondencetojenny@openai.com")
    ensures IsJunkEmail("Pleasesendcorrespondencetogemini-report@google.com")
    ensures IsJunkEmail("Workconductedwhilethefirstauthorwasanintern@Booking.com")
    ensures IsJunkEmail("firstname.lastname@lne.fr")
    ensures IsJunkEmail("firstname.secondname@cl.cam.ac.uk")
    ensures IsJunkEmail("name.surname@unibo.it")
    ensures IsJunkEmail("Germany.firstname.surname@tum.de")
    ensures IsJunkEmail("gmail.comnatsuhadder001@gmail.com")
  {
    BadApollo();
    BadOpenAI();
    BadPleaseSend();
    BadWorkConducted();
    BadFirstLast();
    BadFirstSecond();
    BadNameSurname();
    BadGermany();
    BadGmail();
  }

  /** A word is not inside a text when no window of the text both starts and ends like it. */
  lemma NoWindow(s: string, w: string)
    requires w != []
    requires forall i :: 0 <= i && i + |w| <= |s| && s[i] == w[0] ==> s[i + |w| - 1] != w[|w| - 1]
    ensures !Contains(s, w)
  {
    forall i | 0 <= i <= |s| ensures !IsPrefix(w, s[i..]) {
      PrefixIff(w, s[i..]);
      if |w| <= |s[i..]| {
        if s[i] == w[0] {
          assert s[i..][..|w|][|w| - 1] == s[i + |w| - 1];
        } else {
          assert s[i..][..|w|][0] == s[i];
        }
      }
    }
    NoOccurrence(s, w);
  }

  /** A text whose first character differs from that of `p` does not start with `p`. */
  lemma FirstCharDiffers(p: string, s: string)
    requires p != [] && s != [] && p[0] != s[0]
    ensures !IsPrefix(p, s)
  {
  }

  /** A text whose `|p|`-th character from the end differs from `p`'s first does not end with `p`. */
  lemma SuffixCharDiffers(p: string, s: string)
    requires p != [] && |p| <= |s| && s[|s| - |p|] != p[0]
    ensures !IsSuffix(p, s)
  {
    SuffixIff(p, s);
    assert s[|s| - |p|..][0] == s[|s| - |p|];
  }

  /** Some character of `w` does not occur in `s`. */
  predicate Lacking(s: string, w: string) {
    exists i :: 0 <= i < |w| && w[i] !in s
  }

  /** A text lacking a character of each block word, or otherwise free of it, holds none. */
  lemma NoBlockWord(l: string)
    requires forall k :: 0 <= k < |BlockWords| ==> Lacking(l, BlockWords[k]) || !Contains(l, BlockWords[k])
    ensures !HasBlockWord(l)
  {
    forall k | 0 <= k < |BlockWords| ensures !Contains(l, BlockWords[k]) {
      if Lacking(l, BlockWords[k]) {
        var i :| 0 <= i < |BlockWords[k]| && BlockWords[k][i] !in l;
        LacksChar(l, BlockWords[k], i);
      }
    }
  }

  /** A local part on which none of the rules fires. */
  predicate PassesRules(l: string) {
    '@' !in l && (forall i | 0 <= i < |l| :: !IsAsciiUpper(l[i]))
    && !HasBlockWord(l) && !NameLabel(l) && !WebmailStart(l) && |l| <= MaxLocalLength
  }

  /** Such a local part is not junk, whatever the domain. */
  lemma PassesNotJunk(local: string, domain: string)
    requires PassesRules(local)
    ensures !IsJunkEmail(local + "@" + domain)
  {
    LowerLocal(local, domain);
  }

  /** The only 'h' of "researcher" is too near its end to start "here". */
  lemma HereNotInResearcher()
    ensures !Contains("researcher", "here")
  {
    assert forall i :: 0 <= i && i + 4 <= |"researcher"| ==> "researcher"[i] != 'h';
    NoWindow("researcher", "here");
  }

  lemma JDoeLacks0()
    ensures forall k :: 0 <= k < 4 ==> Lacking("j.doe", BlockWords[k])
  {
    forall k | 0 <= k < 4 ensures Lacking("j.doe", BlockWords[k]) {
      if k == 0 { assert BlockWords[0][0] !in "j.doe"; }
      else if k == 1 { assert BlockWords[1][0] !in "j.doe"; }
      else if k == 2 { assert BlockWords[2][0] !in "j.doe"; }
      else { assert BlockWords[3][0] !in "j.doe"; }
    }
  }

  lemma JDoeLacks1()
    ensures forall k :: 4 <= k < 8 ==> Lacking("j.doe", BlockWords[k])
  {
    forall k | 4 <= k < 8 ensures Lacking("j.doe", BlockWords[k]) {
      if k == 4 { assert BlockWords[4][0] !in "j.doe"; }
      else if k == 5 { assert BlockWords[5][0] !in "j.doe"; }
      else if k == 6 { assert BlockWords[6][0] !in "j.doe"; }
      else { assert BlockWords[7][0] !in "j.doe"; }
    }
  }

  lemma JDoeLacks2()
    ensures forall k :: 8 <= k < 12 ==> Lacking("j.doe", BlockWords[k])
  {
    forall k | 8 <= k < 12 ensures Lacking("j.doe", BlockWords[k]) {
      if k == 8 { assert BlockWords[8][0] !in "j.doe"; }
      else if k == 9 { assert BlockWords[9][0] !in "j.doe"; }
      else if k == 10 { assert BlockWords[10][0] !in "j.doe"; }
      else { assert BlockWords[11][0] !in "j.doe"; }
    }
  }

  lemma JDoeLacks3()
    ensures forall k :: 12 <= k < 16 ==> Lacking("j.doe", BlockWords[k])
  {
    forall k | 12 <= k < 16 ensures Lacking("j.doe", BlockWords[k]) {
      if k == 12 { assert BlockWords[12][0] !in "j.doe"; }
      else if k == 13 { assert BlockWords[13][0] !in "j.doe"; }
      else if k == 14 { assert BlockWords[14][0] !in "j.doe"; }
      else { assert BlockWords[15][0] !in "j.doe"; }
    }
  }

  lemma JDoeLacks4()
    ensures forall k :: 16 <= k < 20 ==> Lacking("j.doe", BlockWords[k])
  {
    forall k | 16 <= k < 20 ensures Lacking("j.doe", BlockWords[k]) {
      if k == 16 { assert BlockWords[16][0] !in "j.doe"; }
      else if k == 17 { assert BlockWords[17][0] !in "j.doe"; }
      else if k == 18 { assert BlockWords[18][0] !in "j.doe"; }
      else { assert BlockWords[19][0] !in "j.doe"; }
    }
  }

  lemma JDoeLacks5()
    ensures forall k :: 20 <= k < 24 ==> Lacking("j.doe", BlockWords[k])
  {
    forall k | 20 <= k < 24 ensures Lacking("j.doe", BlockWords[k]) {
      if k == 20 { assert BlockWords[20][1] !in "j.doe"; }
      else if k == 21 { assert BlockWords[21][1] !in "j.doe"; }
      else if k == 22 { assert BlockWords[22][0] !in "j.doe"; }
      else { assert BlockWords[23][2] !in "j.doe"; }
    }
  }

  lemma JDoeLacks6()
    ensures forall k :: 24 <= k < 25 ==> Lacking("j.doe", BlockWords[k])
  {
    forall k | 24 <= k < 25 ensures Lacking("j.doe", BlockWords[k]) {
      assert BlockWords[24][0] !in "j.doe";
    }
  }

  lemma JDoeNoBlockWord()
    ensures !HasBlockWord("j.doe")
  {
    JDoeLacks0();
    JDoeLacks1();
    JDoeLacks2();
    JDoeLacks3();
    JDoeLacks4();
    JDoeLacks5();
    JDoeLacks6();
    NoBlockWord("j.doe");
  }

  lemma JDoePlain()
    ensures '@' !in "j.doe"
    ensures forall i | 0 <= i < |"j.doe"| :: !IsAsciiUpper("j.doe"[i])
    ensures "j.doe" + "@" + "univ.edu" == "j.doe@univ.edu"
  {
  }

  lemma JDoeRules()
    ensures !NameLabel("j.doe") && !WebmailStart("j.doe")
  {
    FirstCharDiffers("name.", "j.doe");
    FirstCharDiffers("gmail.com", "j.doe");
    FirstCharDiffers("yahoo.com", "j.doe");
    FirstCharDiffers("hotmail.com", "j.doe");
    SuffixCharDiffers(".name", "j.doe");
    LacksChar("j.doe", ".name.", 1);
  }

  lemma JDoePasses()
    ensures PassesRules("j.doe")
  {
    JDoePlain();
    JDoeNoBlockWord();
    JDoeRules();
  }

  lemma GoodJDoe()
    ensures !IsJunkEmail("j.doe@univ.edu")
  {
    JDoePlain();
    JDoePasses();
    PassesNotJunk("j.doe", "univ.edu");
  }

  lemma JaneSmithLacks0()
    ensures forall k :: 0 <= k < 4 ==> Lacking("jane.smith", BlockWords[k])
  {
    forall k | 0 <= k < 4 ensures Lacking("jane.smith", BlockWords[k]) {
      if k == 0 { assert BlockWords[0][0] !in "jane.smith"; }
      else if k == 1 { assert BlockWords[1][0] !in "jane.smith"; }
      else if k == 2 { assert BlockWords[2][0] !in "jane.smith"; }
      else { assert BlockWords[3][0] !in "jane.smith"; }
    }
  }

  lemma JaneSmithLacks1()
    ensures forall k :: 4 <= k < 8 ==> Lacking("jane.smith", BlockWords[k])
  {
    forall k | 4 <= k < 8 ensures Lacking("jane.smith", BlockWords[k]) {
      if k == 4 { assert BlockWords[4][0] !in "jane.smith"; }
      else if k == 5 { assert BlockWords[5][4] !in "jane.smith"; }
      else if k == 6 { assert BlockWords[6][0] !in "jane.smith"; }
      else { assert BlockWords[7][1] !in "jane.smith"; }
    }
  }

  lemma JaneSmithLacks2()
    ensures forall k :: 8 <= k < 12 ==> Lacking("jane.smith", BlockWords[k])
  {
    forall k | 8 <= k < 12 ensures Lacking("jane.smith", BlockWords[k]) {
      if k == 8 { assert BlockWords[8][0] !in "jane.smith"; }
      else if k == 9 { assert BlockWords[9][1] !in "jane.smith"; }
      else if k == 10 { assert BlockWords[10][0] !in "jane.smith"; }
      else { assert BlockWords[11][1] !in "jane.smith"; }
    }
  }

  lemma JaneSmithLacks3()
    ensures forall k :: 12 <= k < 16 ==> Lacking("jane.smith", BlockWords[k])
  {
    forall k | 12 <= k < 16 ensures Lacking("jane.smith", BlockWords[k]) {
      if k == 12 { assert BlockWords[12][0] !in "jane.smith"; }
      else if k == 13 { assert BlockWords[13][0] !in "jane.smith"; }
      else if k == 14 { assert BlockWords[14][0] !in "jane.smith"; }
      else { assert BlockWords[15][1] !in "jane.smith"; }
    }
  }

  lemma JaneSmithLacks4()
    ensures forall k :: 16 <= k < 20 ==> Lacking("jane.smith", BlockWords[k])
  {
    forall k | 16 <= k < 20 ensures Lacking("jane.smith", BlockWords[k]) {
      if k == 16 { assert BlockWords[16][2] !in "jane.smith"; }
      else if k == 17 { assert BlockWords[17][0] !in "jane.smith"; }
      else if k == 18 { assert BlockWords[18][0] !in "jane.smith"; }
      else { assert BlockWords[19][0] !in "jane.smith"; }
    }
  }

  lemma JaneSmithLacks5()
    ensures forall k :: 20 <= k < 24 ==> Lacking("jane.smith", BlockWords[k])
  {
    forall k | 20 <= k < 24 ensures Lacking("jane.smith", BlockWords[k]) {
      if k == 20 { assert BlockWords[20][1] !in "jane.smith"; }
      else if k == 21 { assert BlockWords[21][4] !in "jane.smith"; }
      else if k == 22 { assert BlockWords[22][0] !in "jane.smith"; }
      else { assert BlockWords[23][0] !in "jane.smith"; }
    }
  }

  lemma JaneSmithLacks6()
    ensures forall k :: 24 <= k < 25 ==> Lacking("jane.smith", BlockWords[k])
  {
    forall k | 24 <= k < 25 ensures Lacking("jane.smith", BlockWords[k]) {
      assert BlockWords[24][2] !in "jane.smith";
    }
  }

  lemma JaneSmithNoBlockWord()
    ensures !HasBlockWord("jane.smith")
  {
    JaneSmithLacks0();
    JaneSmithLacks1();
    JaneSmithLacks2();
    JaneSmithLacks3();
    JaneSmithLacks4();
    JaneSmithLacks5();
    JaneSmithLacks6();
    NoBlockWord("jane.smith");
  }

  lemma JaneSmithPlain()
    ensures '@' !in "jane.smith"
    ensures forall i | 0 <= i < |"jane.smith"| :: !IsAsciiUpper("jane.smith"[i])
    ensures "jane.smith" + "@" + "company.com" == "jane.smith@company.com"
  {
  }

  lemma JaneSmithRules()
    ensures !NameLabel("jane.smith") && !WebmailStart("jane.smith")
  {
    FirstCharDiffers("name.", "jane.smith");
    FirstCharDiffers("gmail.com", "jane.smith");
    FirstCharDiffers("yahoo.com", "jane.smith");
    FirstCharDiffers("hotmail.com", "jane.smith");
    SuffixCharDiffers(".name", "jane.smith");
    assert forall i :: 0 <= i && i + 6 <= |"jane.smith"| && "jane.smith"[i] == '.' ==> "jane.smith"[i + 5] != '.';
    NoWindow("jane.smith", ".name.");
  }

  lemma JaneSmithPasses()
    ensures PassesRules("jane.smith")
  {
    JaneSmithPlain();
    JaneSmithNoBlockWord();
    JaneSmithRules();
  }

  lemma GoodJaneSmith()
    ensures !IsJunkEmail("jane.smith@company.com")
  {
    JaneSmithPlain();
    JaneSmithPasses();
    PassesNotJunk("jane.smith", "company.com");
  }

  lemma InfoLacks0()
    ensures forall k :: 0 <= k < 4 ==> Lacking("info", BlockWords[k])
  {
    forall k | 0 <= k < 4 ensures Lacking("info", BlockWords[k]) {
      if k == 0 { assert BlockWords[0][0] !in "info"; }
      else if k == 1 { assert BlockWords[1][0] !in "info"; }
      else if k == 2 { assert BlockWords[2][0] !in "info"; }
      else { assert BlockWords[3][0] !in "info"; }
    }
  }

  lemma InfoLacks1()
    ensures forall k :: 4 <= k < 8 ==> Lacking("info", BlockWords[k])
  {
    forall k | 4 <= k < 8 ensures Lacking("info", BlockWords[k]) {
      if k == 4 { assert BlockWords[4][0] !in "info"; }
      else if k == 5 { assert BlockWords[5][2] !in "info"; }
      else if k == 6 { assert BlockWords[6][0] !in "info"; }
      else { assert BlockWords[7][0] !in "info"; }
    }
  }

  lemma InfoLacks2()
    ensures forall k :: 8 <= k < 12 ==> Lacking("info", BlockWords[k])
  {
    forall k | 8 <= k < 12 ensures Lacking("info", BlockWords[k]) {
      if k == 8 { assert BlockWords[8][0] !in "info"; }
      else if k == 9 { assert BlockWords[9][0] !in "info"; }
      else if k == 10 { assert BlockWords[10][0] !in "info"; }
      else { assert BlockWords[11][0] !in "info"; }
    }
  }

  lemma InfoLacks3()
    ensures forall k :: 12 <= k < 16 ==> Lacking("info", BlockWords[k])
  {
    forall k | 12 <= k < 16 ensures Lacking("info", BlockWords[k]) {
      if k == 12 { assert BlockWords[12][0] !in "info"; }
      else if k == 13 { assert BlockWords[13][2] !in "info"; }
      else if k == 14 { assert BlockWords[14][0] !in "info"; }
      else { assert BlockWords[15][0] !in "info"; }
    }
  }

  lemma InfoLacks4()
    ensures forall k :: 16 <= k < 20 ==> Lacking("info", BlockWords[k])
  {
    forall k | 16 <= k < 20 ensures Lacking("info", BlockWords[k]) {
      if k == 16 { assert BlockWords[16][0] !in "info"; }
      else if k == 17 { assert BlockWords[17][0] !in "info"; }
      else if k == 18 { assert BlockWords[18][0] !in "info"; }
      else { assert BlockWords[19][0] !in "info"; }
    }
  }

  lemma InfoLacks5()
    ensures forall k :: 20 <= k < 24 ==> Lacking("info", BlockWords[k])
  {
    forall k | 20 <= k < 24 ensures Lacking("info", BlockWords[k]) {
      if k == 20 { assert BlockWords[20][0] !in "info"; }
      else if k == 21 { assert BlockWords[21][0] !in "info"; }
      else if k == 22 { assert BlockWords[22][0] !in "info"; }
      else { assert BlockWords[23][0] !in "info"; }
    }
  }

  lemma InfoLacks6()
    ensures forall k :: 24 <= k < 25 ==> Lacking("info", BlockWords[k])
  {
    forall k | 24 <= k < 25 ensures Lacking("info", BlockWords[k]) {
      assert BlockWords[24][0] !in "info";
    }
  }

  lemma InfoNoBlockWord()
    ensures !HasBlockWord("info")
  {
    InfoLacks0();
    InfoLacks1();
    InfoLacks2();
    InfoLacks3();
    InfoLacks4();
    InfoLacks5();
    InfoLacks6();
    NoBlockWord("info");
  }

  lemma InfoPlain()
    ensures '@' !in "info"
    ensures forall i | 0 <= i < |"info"| :: !IsAsciiUpper("info"[i])
    ensures "info" + "@" + "startup.io" == "info@startup.io"
  {
  }

  lemma InfoRules()
    ensures !NameLabel("info") && !WebmailStart("info")
  {
    FirstCharDiffers("name.", "info");
    FirstCharDiffers("gmail.com", "info");
    FirstCharDiffers("yahoo.com", "info");
    FirstCharDiffers("hotmail.com", "info");
    assert !IsSuffix(".name", "info");
    LacksChar("info", ".name.", 0);
  }

  lemma InfoPasses()
    ensures PassesRules("info")
  {
    InfoPlain();
    InfoNoBlockWord();
    InfoRules();
  }

  lemma GoodInfo()
    ensures !IsJunkEmail("info@startup.io")
  {
    InfoPlain();
    InfoPasses();
    PassesNotJunk("info", "startup.io");
  }

  lemma ResearcherLacks0()
    ensures forall k :: 0 <= k < 4 ==> Lacking("researcher", BlockWords[k])
  {
    forall k | 0 <= k < 4 ensures Lacking("researcher", BlockWords[k]) {
      if k == 0 { assert BlockWords[0][1] !in "researcher"; }
      else if k == 1 { assert BlockWords[1][0] !in "researcher"; }
      else if k == 2 { assert BlockWords[2][0] !in "researcher"; }
      else { assert BlockWords[3][0] !in "researcher"; }
    }
  }

  lemma ResearcherLacks1()
    ensures forall k :: 4 <= k < 8 ==> Lacking("researcher", BlockWords[k])
  {
    forall k | 4 <= k < 8 ensures Lacking("researcher", BlockWords[k]) {
      if k == 4 { assert BlockWords[4][0] !in "researcher"; }
      else if k == 5 { assert BlockWords[5][0] !in "researcher"; }
      else if k == 6 { assert BlockWords[6][1] !in "researcher"; }
      else { assert BlockWords[7][1] !in "researcher"; }
    }
  }

  lemma ResearcherLacks2()
    ensures forall k :: 8 <= k < 12 ==> Lacking("researcher", BlockWords[k])
  {
    forall k | 8 <= k < 12 ensures Lacking("researcher", BlockWords[k]) {
      if k == 8 { assert BlockWords[8][2] !in "researcher"; }
      else if k == 9 { assert BlockWords[9][1] !in "researcher"; }
      else if k == 10 { assert BlockWords[10][0] !in "researcher"; }
      else { assert BlockWords[11][1] !in "researcher"; }
    }
  }

  lemma ResearcherLacks3()
    ensures forall k :: 12 <= k < 16 ==> Lacking("researcher", BlockWords[k])
  {
    forall k | 12 <= k < 16 ensures Lacking("researcher", BlockWords[k]) {
      if k == 12 { assert BlockWords[12][0] !in "researcher"; }
      else if k == 13 { assert BlockWords[13][0] !in "researcher"; }
      else if k == 14 { assert BlockWords[14][0] !in "researcher"; }
      else { assert BlockWords[15][1] !in "researcher"; }
    }
  }

  lemma ResearcherLacks4()
    ensures forall k :: 16 <= k < 20 ==> Lacking("researcher", BlockWords[k])
  {
    forall k | 16 <= k < 20 ensures Lacking("researcher", BlockWords[k]) {
      if k == 16 { assert BlockWords[16][3] !in "researcher"; }
      else if k == 17 { assert BlockWords[17][0] !in "researcher"; }
      else if k == 18 { assert BlockWords[18][0] !in "researcher"; }
      else { assert BlockWords[19][0] !in "researcher"; }
    }
  }

  lemma ResearcherLacks5()
    ensures forall k :: 20 <= k < 24 ==> Lacking("researcher", BlockWords[k])
  {
    forall k | 20 <= k < 24 ensures Lacking("researcher", BlockWords[k]) {
      if k == 20 { assert BlockWords[20][1] !in "researcher"; }
      else if k == 21 { assert BlockWords[21][1] !in "researcher"; }
      else if k == 22 { assert BlockWords[22][1] !in "researcher"; }
      else { assert BlockWords[23][0] !in "researcher"; }
    }
  }

  lemma ResearcherLacks6()
    ensures forall k :: 24 <= k < 25 ==> Lacking("researcher", BlockWords[k]) || !Contains("researcher", BlockWords[k])
  {
    forall k | 24 <= k < 25 ensures Lacking("researcher", BlockWords[k]) || !Contains("researcher", BlockWords[k]) {
      assert BlockWords[24] == "here"; HereNotInResearcher();
    }
  }

  lemma ResearcherNoBlockWord()
    ensures !HasBlockWord("researcher")
  {
    ResearcherLacks0();
    ResearcherLacks1();
    ResearcherLacks2();
    ResearcherLacks3();
    ResearcherLacks4();
    ResearcherLacks5();
    ResearcherLacks6();
    NoBlockWord("researcher");
  }

  lemma ResearcherPlain()
    ensures '@' !in "researcher"
    ensures forall i | 0 <= i < |"researcher"| :: !IsAsciiUpper("researcher"[i])
    ensures "researcher" + "@" + "lab.ac.uk" == "researcher@lab.ac.uk"
  {
  }

  lemma ResearcherRules()
    ensures !NameLabel("researcher") && !WebmailStart("researcher")
  {
    FirstCharDiffers("name.", "researcher");
    FirstCharDiffers("gmail.com", "researcher");
    FirstCharDiffers("yahoo.com", "researcher");
    FirstCharDiffers("hotmail.com", "researcher");
    SuffixCharDiffers(".name", "researcher");
    LacksChar("researcher", ".name.", 0);
  }

  lemma ResearcherPasses()
    ensures PassesRules("researcher")
  {
    ResearcherPlain();
    ResearcherNoBlockWord();
    ResearcherRules();
  }

  lemma GoodResearcher()
    ensures !IsJunkEmail("researcher@lab.ac.uk")
  {
    ResearcherPlain();
    ResearcherPasses();
    PassesNotJunk("researcher", "lab.ac.uk");
  }

  /** The emails of `good_emails` in simple_test.py and test_filters.py are not junk. */
  lemma GoodEmailsAreNotJunk()
    ensures !IsJunkEmail("j.doe@univ.edu")
    ensures !IsJunkEmail("jane.smith@company.com")
    ensures !IsJunkEmail("info@startup.io")
    ensures !IsJunkEmail("researcher@lab.ac.uk")
  {
    GoodJDoe();
    GoodJaneSmith();
    GoodInfo();
    GoodResearcher();
  }

  lemma ReportLacks0()
    ensures forall k :: 0 <= k < 5 ==> Lacking("report", BlockWords[k])
  {
    forall k | 0 <= k < 5 ensures Lacking("report", BlockWords[k]) {
      if k == 0 { assert BlockWords[0][0] !in "report"; }
      else if k == 1 { assert BlockWords[1][1] !in "report"; }
      else if k == 2 { assert BlockWords[2][0] !in "report"; }
      else if k == 3 { assert BlockWords[3][0] !in "report"; }
      else { assert BlockWords[4][0] !in "report"; }
    }
  }

  lemma ReportLacks1()
    ensures forall k :: 5 <= k < 10 ==> Lacking("report", BlockWords[k])
  {
    forall k | 5 <= k < 10 ensures Lacking("report", BlockWords[k]) {
      if k == 5 { assert BlockWords[5][0] !in "report"; }
      else if k == 6 { assert BlockWords[6][0] !in "report"; }
      else if k == 7 { assert BlockWords[7][0] !in "report"; }
      else if k == 8 { assert BlockWords[8][4] !in "report"; }
      else { assert BlockWords[9][0] !in "report"; }
    }
  }

  lemma ReportLacks2()
    ensures forall k :: 10 <= k < 15 ==> Lacking("report", BlockWords[k])
  {
    forall k | 10 <= k < 15 ensures Lacking("report", BlockWords[k]) {
      if k == 10 { assert BlockWords[10][1] !in "report"; }
      else if k == 11 { assert BlockWords[11][0] !in "report"; }
      else if k == 12 { assert BlockWords[12][5] !in "report"; }
      else if k == 13 { assert BlockWords[13][0] !in "report"; }
      else { assert BlockWords[14][0] !in "report"; }
    }
  }

  lemma ReportLacks3()
    ensures forall k :: 15 <= k < 20 ==> Lacking("report", BlockWords[k])
  {
    forall k | 15 <= k < 20 ensures Lacking("report", BlockWords[k]) {
      if k == 15 { assert BlockWords[15][0] !in "report"; }
      else if k == 16 { assert BlockWords[16][0] !in "report"; }
      else if k == 17 { assert BlockWords[17][0] !in "report"; }
      else if k == 18 { assert BlockWords[18][0] !in "report"; }
      else { assert BlockWords[19][0] !in "report"; }
    }
  }

  lemma ReportLacks4()
    ensures forall k :: 20 <= k < 25 ==> Lacking("report", BlockWords[k])
  {
    forall k | 20 <= k < 25 ensures Lacking("report", BlockWords[k]) {
      if k == 20 { assert BlockWords[20][1] !in "report"; }
      else if k == 21 { assert BlockWords[21][1] !in "report"; }
      else if k == 22 { assert BlockWords[22][0] !in "report"; }
      else if k == 23 { assert BlockWords[23][0] !in "report"; }
      else { assert BlockWords[24][0] !in "report"; }
    }
  }

  lemma ReportPasses()
    ensures PassesRules("report")
  {
    ReportLacks0();
    ReportLacks1();
    ReportLacks2();
    ReportLacks3();
    ReportLacks4();
    NoBlockWord("report");
    FirstCharDiffers("name.", "report");
    FirstCharDiffers("gmail.com", "report");
    FirstCharDiffers("yahoo.com", "report");
    FirstCharDiffers("hotmail.com", "report");
    SuffixCharDiffers(".name", "report");
    LacksChar("report", ".name.", 0);
  }

  /**
    "report" is not a block word: `report@google.com`, the address
    verify_report_filter.py hopes to see filtered, passes the filter.
  */
  lemma ReportIsAllowed()
    ensures !IsJunkEmail("report@google.com")
  {
    ReportPasses();
    assert "report" + "@" + "google.com" == "report@google.com";
    PassesNotJunk("report", "google.com");
  }
}
