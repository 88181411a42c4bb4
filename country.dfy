/**
  `get_country`: the country of a mail domain, read off the longest suffix
  of the lower-cased domain that is a key of a fixed table, "Other/Global"
  when none is. main.py and backup.py share a 15-entry table; simple_test.py
  carries a 67-entry one.
*/
module Country {
  import opened Text
  import opened Wrappers

  const Fallback: string := "Other/Global"

  /**
    The table of main.py:39-55, identical to backup.py's, written in groups
    by the first letter of each key's last label as the larger table below.
  */
  const MainTable: map<string, string> := MainAC + MainDH + (MainIK + MainSU)

  const MainAC: map<string, string> :=
    map[".edu.au" := "Australia", ".au" := "Australia", ".cn" := "China", ".ca" := "Canada"]
  const MainDH: map<string, string> :=
    map[".hk" := "Hong Kong", ".de" := "Germany", ".fr" := "France", ".edu" := "USA (Academic)"]
  const MainIK: map<string, string> :=
    map[".jp" := "Japan", ".kr" := "South Korea", ".in" := "India"]
  const MainSU: map<string, string> :=
    map[".ac.uk" := "United Kingdom", ".uk" := "United Kingdom", ".tw" := "Taiwan", ".sg" := "Singapore"]

  /*
    simple_test.py's table (simple_test.py:42-95). A dictionary display has
    no order that matters to a lookup, so the 67 entries are written here in
    groups, by the first letter of the key's last label ("ac.uk" goes with
    "uk"), and the table is the union of the groups.
  */
  const ExtendedAB: map<string, string> :=
    map[
      ".edu.au" := "Australia", ".com.au" := "Australia", ".net.au" := "Australia",
      ".au" := "Australia", ".br" := "Brazil", ".at" := "Austria",
      ".be" := "Belgium", ".ar" := "Argentina", ".ae" := "UAE"
    ]
  const ExtendedC: map<string, string> :=
    map[
      ".edu.cn" := "China", ".com.cn" := "China", ".cn" := "China",
      ".ca" := "Canada", ".ch" := "Switzerland", ".cz" := "Czech Republic",
      ".cl" := "Chile", ".co" := "Colombia"
    ]
  const ExtendedDF: map<string, string> :=
    map[
      ".de" := "Germany", ".fr" := "France", ".edu" := "USA (Academic)",
      ".es" := "Spain", ".dk" := "Denmark", ".fi" := "Finland",
      ".eg" := "Egypt"
    ]
  const ExtendedGH: map<string, string> :=
    map[
      ".edu.hk" := "Hong Kong", ".hk" := "Hong Kong", ".gr" := "Greece",
      ".hu" := "Hungary"
    ]
  const ExtendedI: map<string, string> :=
    map[
      ".in" := "India", ".ac.in" := "India", ".co.in" := "India",
      ".it" := "Italy", ".il" := "Israel", ".ac.il" := "Israel",
      ".id" := "Indonesia", ".ie" := "Ireland", ".ir" := "Iran"
    ]
  const ExtendedJM: map<string, string> :=
    map[
      ".jp" := "Japan", ".ac.jp" := "Japan", ".kr" := "South Korea",
      ".ac.kr" := "South Korea", ".mx" := "Mexico", ".my" := "Malaysia"
    ]
  const ExtendedNP: map<string, string> :=
    map[
      ".nl" := "Netherlands", ".pk" := "Pakistan", ".no" := "Norway",
      ".pl" := "Poland", ".ph" := "Philippines", ".nz" := "New Zealand",
      ".pt" := "Portugal"
    ]
  const ExtendedRS: map<string, string> :=
    map[
      ".sg" := "Singapore", ".com.sg" := "Singapore", ".ru" := "Russia",
      ".se" := "Sweden", ".ro" := "Romania", ".sa" := "Saudi Arabia"
    ]
  const ExtendedTU: map<string, string> :=
    map[
      ".ac.uk" := "United Kingdom", ".co.uk" := "United Kingdom", ".uk" := "United Kingdom",
      ".edu.tw" := "Taiwan", ".tw" := "Taiwan", ".tr" := "Turkey",
      ".th" := "Thailand", ".ua" := "Ukraine"
    ]
  const ExtendedVZ: map<string, string> :=
    map[
      ".za" := "South Africa", ".ac.za" := "South Africa", ".vn" := "Vietnam"
    ]

  /** The whole table. */
  const ExtendedTable: map<string, string> :=
    ((ExtendedAB + ExtendedC) + (ExtendedDF + ExtendedGH)) +
    ((ExtendedI + ExtendedJM) + ((ExtendedNP + ExtendedRS) + (ExtendedTU + ExtendedVZ)))

  /** The suffixes of `d` are its tails, one per length. */
  lemma SuffixOfLength(d: string, i: nat)
    requires i <= |d|
    ensures IsSuffix(d[i..], d)
    ensures forall k :: IsSuffix(k, d) && |k| == |d| - i ==> k == d[i..]
  {
    SuffixIff(d[i..], d);
    forall k | IsSuffix(k, d) && |k| == |d| - i ensures k == d[i..] {
      SuffixIff(k, d);
    }
  }

  /**
    The longest key of `table` that ends `d` and is no longer than `d[i..]`:
    the tails of `d` are tried from the longest down.
  */
  function LongestKeySuffix(table: map<string, string>, d: string, i: nat): (r: Option<string>)
    requires i <= |d|
    ensures r.Some? ==> r.value in table && IsSuffix(r.value, d) && |r.value| <= |d| - i
    ensures r.Some? ==> forall k | k in table && IsSuffix(k, d) && |k| <= |d| - i :: |k| <= |r.value|
    ensures r.None? ==> forall k | k in table && IsSuffix(k, d) :: |k| > |d| - i
    decreases |d| - i
  {
    SuffixOfLength(d, i);
    if d[i..] in table then Some(d[i..])
    else if i == |d| then None
    else LongestKeySuffix(table, d, i + 1)
  }

  /** `get_country(domain)` over `table`. */
  function GetCountry(table: map<string, string>, domain: string): (country: string)
    ensures (forall k | k in table :: !IsSuffix(k, Lower(domain))) ==> country == Fallback
    ensures country == Fallback || exists k | k in table && IsSuffix(k, Lower(domain)) :: country == table[k]
    ensures (exists k :: k in table && IsSuffix(k, Lower(domain))) ==>
      exists b :: b in table && IsSuffix(b, Lower(domain)) && country == table[b] &&
        forall k :: k in table && IsSuffix(k, Lower(domain)) ==> |k| <= |b|
  {
    match LongestKeySuffix(table, Lower(domain), 0)
    case None =>
      assert forall k :: k in table && IsSuffix(k, Lower(domain)) ==> false by {
        forall k | k in table && IsSuffix(k, Lower(domain)) ensures false {
          SuffixIff(k, Lower(domain));
        }
      }
      Fallback
    case Some(k) => table[k]
  }

  // ---------------------------------------------------------------------
  // The source's scan: keys sorted by decreasing length, first hit wins
  // ---------------------------------------------------------------------

  /** `for tld in order: if d.endswith(tld): return tld` */
  function FirstMatch(order: seq<string>, d: string): (r: Option<string>)
    ensures r.Some? ==> r.value in order && IsSuffix(r.value, d)
    ensures r.None? <==> forall k | k in order :: !IsSuffix(k, d)
  {
    if order == [] then None
    else if IsSuffix(order[0], d) then Some(order[0])
    else FirstMatch(order[1..], d)
  }

  /** `sorted(tld_map, key=len, reverse=True)`: the keys, longest first. */
  predicate SortedByLengthDesc(order: seq<string>) {
    forall i, j :: 0 <= i < j < |order| ==> |order[i]| >= |order[j]|
  }

  lemma {:induction false} FirstMatchIsEarliest(order: seq<string>, d: string, j: nat)
    requires j < |order| && IsSuffix(order[j], d)
    ensures FirstMatch(order, d).Some?
    ensures exists i :: 0 <= i <= j && order[i] == FirstMatch(order, d).value
  {
    if !IsSuffix(order[0], d) {
      FirstMatchIsEarliest(order[1..], d, j - 1);
      var i :| 0 <= i <= j - 1 && order[1..][i] == FirstMatch(order[1..], d).value;
      assert order[i + 1] == order[1..][i];
    }
  }

  /** Two suffixes of the same string with the same length are equal. */
  lemma SameLengthSuffixes(a: string, b: string, d: string)
    requires IsSuffix(a, d) && IsSuffix(b, d) && |a| == |b|
    ensures a == b
  {
    SuffixIff(a, d);
    SuffixIff(b, d);
  }

  /**
    Scanning the keys longest-first and stopping at the first that ends the
    domain finds the longest matching key, whatever order keys of equal
    length come in.
  */
  lemma SortedScanFindsLongest(table: map<string, string>, order: seq<string>, d: string)
    requires forall k | k in table :: k in order
    requires forall k | k in order :: k in table
    requires SortedByLengthDesc(order)
    ensures FirstMatch(order, d) == LongestKeySuffix(table, d, 0)
  {
    var best := LongestKeySuffix(table, d, 0);
    var first := FirstMatch(order, d);
    if best.Some? {
      assert best.value in order;
      var j :| 0 <= j < |order| && order[j] == best.value;
      FirstMatchIsEarliest(order, d, j);
      var i :| 0 <= i <= j && order[i] == first.value;
      if i < j {
        assert |order[i]| >= |order[j]|;
      }
      assert first.Some? && IsSuffix(first.value, d) && first.value in table;
      assert IsSuffix(best.value, d);
      assert |first.value| == |best.value|;
      SameLengthSuffixes(first.value, best.value, d);
    } else {
      forall k | k in order ensures !IsSuffix(k, d) {
        assert k in table;
        SuffixIff(k, d);
      }
      assert first.None?;
    }
  }

  /** The country as the source computes it, by the sorted scan. */
  function CountryByScan(table: map<string, string>, order: seq<string>, domain: string): string
    requires forall k :: k in order ==> k in table
  {
    match FirstMatch(order, Lower(domain))
    case None => Fallback
    case Some(k) => table[k]
  }

  lemma ScanAgrees(table: map<string, string>, order: seq<string>, domain: string)
    requires forall k | k in table :: k in order
    requires forall k | k in order :: k in table
    requires SortedByLengthDesc(order)
    ensures CountryByScan(table, order, domain) == GetCountry(table, domain)
  {
    SortedScanFindsLongest(table, order, Lower(domain));
  }

  // ---------------------------------------------------------------------
  // Both tables are coherent: every matching key names the same country
  // ---------------------------------------------------------------------

  /** A key is a dotted suffix whose last label is a key with the same country. */
  predicate KeyAgreesWithTop(table: map<string, string>, k: string)
    requires k in table
  {
    var dot := LastIndexOf(k, '.');
    dot >= 0 && k[dot..] in table && table[k[dot..]] == table[k]
  }

  predicate Coherent(table: map<string, string>) {
    forall k | k in table :: KeyAgreesWithTop(table, k)
  }

  /** The last label of a string is also the last label of any dotted suffix it ends with. */
  lemma LastLabelOfSuffix(k: string, d: string)
    requires IsSuffix(k, d) && LastIndexOf(k, '.') >= 0
    ensures LastIndexOf(d, '.') >= 0
    ensures d[LastIndexOf(d, '.')..] == k[LastIndexOf(k, '.')..]
  {
    SuffixIff(k, d);
    var off := |d| - |k|;
    var lk := LastIndexOf(k, '.');
    assert d[off + lk] == k[lk];
    forall j | off + lk < j < |d| ensures d[j] != '.' {
      assert d[j] == k[j - off];
    }
    LastIndexOfIs(d, '.', off + lk);
    assert d[off + lk..] == k[lk..];
  }

  /**
    In a coherent table every key that ends the domain gives the country the
    lookup returns, so the scan order cannot change the answer.
  */
  lemma AnyMatchingKeyAgrees(table: map<string, string>, domain: string, k: string)
    requires Coherent(table)
    requires k in table && IsSuffix(k, Lower(domain))
    ensures GetCountry(table, domain) == table[k]
  {
    var d := Lower(domain);
    var best := LongestKeySuffix(table, d, 0).value;
    assert KeyAgreesWithTop(table, k);
    assert KeyAgreesWithTop(table, best);
    LastLabelOfSuffix(k, d);
    LastLabelOfSuffix(best, d);
  }

  /** `k`'s last '.' is at `p`, and the label from there on is a key with `k`'s country. */
  lemma KeyAgreesAt(table: map<string, string>, k: string, p: nat, top: string)
    requires k in table && p < |k| && k[p] == '.'
    requires forall j :: p < j < |k| ==> k[j] != '.'
    requires k[p..] == top && top in table && table[top] == table[k]
    ensures KeyAgreesWithTop(table, k)
  {
    LastIndexOfIs(k, '.', p);
  }

  /**
    Every key of `group` is at least two characters long and the first
    letter of its two-letter ending lies between `lo` and `hi`.
  */
  predicate Band(group: map<string, string>, lo: char, hi: char) {
    forall k | k in group :: |k| >= 2 && lo <= k[|k| - 2] <= hi
  }

  /**
    Two coherent tables whose keys lie in separate bands make a coherent
    union: a key's last label, being a key of its own part, is never
    shadowed by the other part.
  */
  lemma CoherentUnion(a: map<string, string>, b: map<string, string>, lo: char, mid: char, hi: char)
    requires Coherent(a) && Band(a, lo, mid)
    requires Coherent(b) && forall k | k in b :: |k| >= 2 && mid < k[|k| - 2] <= hi
    ensures Coherent(a + b)
  {
    forall k | k in a + b ensures KeyAgreesWithTop(a + b, k) {
      var dot := LastIndexOf(k, '.');
      if k in b {
        assert KeyAgreesWithTop(b, k);
        assert (a + b)[k[dot..]] == b[k[dot..]];
      } else {
        assert KeyAgreesWithTop(a, k);
        var top := k[dot..];
        assert top in a;
        assert top !in b;
        assert (a + b)[top] == a[top];
      }
    }
  }

  /** Two adjacent bands make one. */
  lemma BandUnion(a: map<string, string>, b: map<string, string>, lo: char, mid: char, hi: char)
    requires lo <= mid < hi
    requires Band(a, lo, mid)
    requires forall k | k in b :: |k| >= 2 && mid < k[|k| - 2] <= hi
    ensures Band(a + b, lo, hi)
  {
    forall k | k in a + b ensures |k| >= 2 && lo <= k[|k| - 2] <= hi {
      if k !in b {
        assert k in a;
      }
    }
  }

  /** No key of a band ends a domain whose two-letter ending starts outside the band. */
  lemma BandMisses(group: map<string, string>, lo: char, hi: char, d: string)
    requires Band(group, lo, hi) && |d| >= 2 && !(lo <= d[|d| - 2] <= hi)
    ensures forall k | k in group :: !IsSuffix(k, d)
  {
    forall k | k in group ensures !IsSuffix(k, d) {
      SuffixIff(k, d);
      if |k| <= |d| {
        assert d[|d| - |k|..][|k| - 2] == d[|d| - 2];
      }
    }
  }

  lemma MainACCoherent()
    ensures Coherent(MainAC) && Band(MainAC, 'a', 'c')
  {
    forall k | k in MainAC ensures |k| >= 2 && 'a' <= k[|k| - 2] <= 'c' && KeyAgreesWithTop(MainAC, k) {
      if k == ".edu.au" { KeyAgreesAt(MainAC, k, 4, ".au"); }
      else if k == ".au" { KeyAgreesAt(MainAC, k, 0, k); }
      else if k == ".cn" { KeyAgreesAt(MainAC, k, 0, k); }
      else { assert k == ".ca"; KeyAgreesAt(MainAC, k, 0, k); }
    }
  }

  lemma MainDHCoherent()
    ensures Coherent(MainDH) && Band(MainDH, 'd', 'h')
  {
    forall k | k in MainDH ensures |k| >= 2 && 'd' <= k[|k| - 2] <= 'h' && KeyAgreesWithTop(MainDH, k) {
      if k == ".hk" { KeyAgreesAt(MainDH, k, 0, k); }
      else if k == ".de" { KeyAgreesAt(MainDH, k, 0, k); }
      else if k == ".fr" { KeyAgreesAt(MainDH, k, 0, k); }
      else { assert k == ".edu"; KeyAgreesAt(MainDH, k, 0, k); }
    }
  }

  lemma MainIKCoherent()
    ensures Coherent(MainIK) && Band(MainIK, 'i', 'k')
  {
    forall k | k in MainIK ensures |k| >= 2 && 'i' <= k[|k| - 2] <= 'k' && KeyAgreesWithTop(MainIK, k) {
      if k == ".jp" { KeyAgreesAt(MainIK, k, 0, k); }
      else if k == ".kr" { KeyAgreesAt(MainIK, k, 0, k); }
      else { assert k == ".in"; KeyAgreesAt(MainIK, k, 0, k); }
    }
  }

  lemma MainSUCoherent()
    ensures Coherent(MainSU) && Band(MainSU, 's', 'u')
  {
    forall k | k in MainSU ensures |k| >= 2 && 's' <= k[|k| - 2] <= 'u' && KeyAgreesWithTop(MainSU, k) {
      if k == ".ac.uk" { KeyAgreesAt(MainSU, k, 3, ".uk"); }
      else if k == ".uk" { KeyAgreesAt(MainSU, k, 0, k); }
      else if k == ".tw" { KeyAgreesAt(MainSU, k, 0, k); }
      else { assert k == ".sg"; KeyAgreesAt(MainSU, k, 0, k); }
    }
  }

  lemma MainADHCoherent()
    ensures Coherent(MainAC + MainDH) && Band(MainAC + MainDH, 'a', 'h')
  {
    MainACCoherent();
    MainDHCoherent();
    CoherentUnion(MainAC, MainDH, 'a', 'c', 'h');
    BandUnion(MainAC, MainDH, 'a', 'c', 'h');
  }

  lemma MainIUCoherent()
    ensures Coherent(MainIK + MainSU) && Band(MainIK + MainSU, 'i', 'u')
  {
    MainIKCoherent();
    MainSUCoherent();
    CoherentUnion(MainIK, MainSU, 'i', 'k', 'u');
    BandUnion(MainIK, MainSU, 'i', 'k', 'u');
  }

  /** In main.py's table every key that ends a domain names the same country. */
  lemma MainTableCoherent()
    ensures Coherent(MainTable)
  {
    MainADHCoherent();
    MainIUCoherent();
    CoherentUnion(MainAC + MainDH, MainIK + MainSU, 'a', 'h', 'u');
  }

  lemma ExtendedABBand()
    ensures Band(ExtendedAB, 'a', 'b')
  {
    forall k | k in ExtendedAB ensures |k| >= 2 && 'a' <= k[|k| - 2] <= 'b' {
      assert k in {".edu.au", ".com.au", ".net.au", ".au", ".br", ".at", ".be", ".ar", ".ae"};
    }
  }

  lemma ExtendedABCoherent()
    ensures Coherent(ExtendedAB)
  {
    forall k | k in ExtendedAB ensures KeyAgreesWithTop(ExtendedAB, k) {
      if k == ".edu.au" { KeyAgreesAt(ExtendedAB, k, 4, ".au"); }
      else if k == ".com.au" { KeyAgreesAt(ExtendedAB, k, 4, ".au"); }
      else if k == ".net.au" { KeyAgreesAt(ExtendedAB, k, 4, ".au"); }
      else if k == ".au" { KeyAgreesAt(ExtendedAB, k, 0, k); }
      else if k == ".br" { KeyAgreesAt(ExtendedAB, k, 0, k); }
      else if k == ".at" { KeyAgreesAt(ExtendedAB, k, 0, k); }
      else if k == ".be" { KeyAgreesAt(ExtendedAB, k, 0, k); }
      else if k == ".ar" { KeyAgreesAt(ExtendedAB, k, 0, k); }
      else { assert k == ".ae"; KeyAgreesAt(ExtendedAB, k, 0, k); }
    }
  }

  lemma ExtendedCBand()
    ensures Band(ExtendedC, 'c', 'c')
  {
    forall k | k in ExtendedC ensures |k| >= 2 && 'c' <= k[|k| - 2] <= 'c' {
      assert k in {".edu.cn", ".com.cn", ".cn", ".ca", ".ch", ".cz", ".cl", ".co"};
    }
  }

  lemma ExtendedCCoherent()
    ensures Coherent(ExtendedC)
  {
    forall k | k in ExtendedC ensures KeyAgreesWithTop(ExtendedC, k) {
      if k == ".edu.cn" { KeyAgreesAt(ExtendedC, k, 4, ".cn"); }
      else if k == ".com.cn" { KeyAgreesAt(ExtendedC, k, 4, ".cn"); }
      else if k == ".cn" { KeyAgreesAt(ExtendedC, k, 0, k); }
      else if k == ".ca" { KeyAgreesAt(ExtendedC, k, 0, k); }
      else if k == ".ch" { KeyAgreesAt(ExtendedC, k, 0, k); }
      else if k == ".cz" { KeyAgreesAt(ExtendedC, k, 0, k); }
      else if k == ".cl" { KeyAgreesAt(ExtendedC, k, 0, k); }
      else { assert k == ".co"; KeyAgreesAt(ExtendedC, k, 0, k); }
    }
  }

  lemma ExtendedDFBand()
    ensures Band(ExtendedDF, 'd', 'f')
  {
    forall k | k in ExtendedDF ensures |k| >= 2 && 'd' <= k[|k| - 2] <= 'f' {
      assert k in {".de", ".fr", ".edu", ".es", ".dk", ".fi", ".eg"};
    }
  }

  lemma ExtendedDFCoherent()
    ensures Coherent(ExtendedDF)
  {
    forall k | k in ExtendedDF ensures KeyAgreesWithTop(ExtendedDF, k) {
      if k == ".de" { KeyAgreesAt(ExtendedDF, k, 0, k); }
      else if k == ".fr" { KeyAgreesAt(ExtendedDF, k, 0, k); }
      else if k == ".edu" { KeyAgreesAt(ExtendedDF, k, 0, k); }
      else if k == ".es" { KeyAgreesAt(ExtendedDF, k, 0, k); }
      else if k == ".dk" { KeyAgreesAt(ExtendedDF, k, 0, k); }
      else if k == ".fi" { KeyAgreesAt(ExtendedDF, k, 0, k); }
      else { assert k == ".eg"; KeyAgreesAt(ExtendedDF, k, 0, k); }
    }
  }

  lemma ExtendedGHBand()
    ensures Band(ExtendedGH, 'g', 'h')
  {
    forall k | k in ExtendedGH ensures |k| >= 2 && 'g' <= k[|k| - 2] <= 'h' {
      assert k in {".edu.hk", ".hk", ".gr", ".hu"};
    }
  }

  lemma ExtendedGHCoherent()
    ensures Coherent(ExtendedGH)
  {
    forall k | k in ExtendedGH ensures KeyAgreesWithTop(ExtendedGH, k) {
      if k == ".edu.hk" { KeyAgreesAt(ExtendedGH, k, 4, ".hk"); }
      else if k == ".hk" { KeyAgreesAt(ExtendedGH, k, 0, k); }
      else if k == ".gr" { KeyAgreesAt(ExtendedGH, k, 0, k); }
      else { assert k == ".hu"; KeyAgreesAt(ExtendedGH, k, 0, k); }
    }
  }

  lemma ExtendedIBand()
    ensures Band(ExtendedI, 'i', 'i')
  {
    forall k | k in ExtendedI ensures |k| >= 2 && 'i' <= k[|k| - 2] <= 'i' {
      assert k in {".in", ".ac.in", ".co.in", ".it", ".il", ".ac.il", ".id", ".ie", ".ir"};
    }
  }

  lemma ExtendedICoherent()
    ensures Coherent(ExtendedI)
  {
    forall k | k in ExtendedI ensures KeyAgreesWithTop(ExtendedI, k) {
      if k == ".in" { KeyAgreesAt(ExtendedI, k, 0, k); }
      else if k == ".ac.in" { KeyAgreesAt(ExtendedI, k, 3, ".in"); }
      else if k == ".co.in" { KeyAgreesAt(ExtendedI, k, 3, ".in"); }
      else if k == ".it" { KeyAgreesAt(ExtendedI, k, 0, k); }
      else if k == ".il" { KeyAgreesAt(ExtendedI, k, 0, k); }
      else if k == ".ac.il" { KeyAgreesAt(ExtendedI, k, 3, ".il"); }
      else if k == ".id" { KeyAgreesAt(ExtendedI, k, 0, k); }
      else if k == ".ie" { KeyAgreesAt(ExtendedI, k, 0, k); }
      else { assert k == ".ir"; KeyAgreesAt(ExtendedI, k, 0, k); }
    }
  }

  lemma ExtendedJMBand()
    ensures Band(ExtendedJM, 'j', 'm')
  {
    forall k | k in ExtendedJM ensures |k| >= 2 && 'j' <= k[|k| - 2] <= 'm' {
      assert k in {".jp", ".ac.jp", ".kr", ".ac.kr", ".mx", ".my"};
    }
  }

  lemma ExtendedJMCoherent()
    ensures Coherent(ExtendedJM)
  {
    forall k | k in ExtendedJM ensures KeyAgreesWithTop(ExtendedJM, k) {
      if k == ".jp" { KeyAgreesAt(ExtendedJM, k, 0, k); }
      else if k == ".ac.jp" { KeyAgreesAt(ExtendedJM, k, 3, ".jp"); }
      else if k == ".kr" { KeyAgreesAt(ExtendedJM, k, 0, k); }
      else if k == ".ac.kr" { KeyAgreesAt(ExtendedJM, k, 3, ".kr"); }
      else if k == ".mx" { KeyAgreesAt(ExtendedJM, k, 0, k); }
      else { assert k == ".my"; KeyAgreesAt(ExtendedJM, k, 0, k); }
    }
  }

  lemma ExtendedNPBand()
    ensures Band(ExtendedNP, 'n', 'p')
  {
    forall k | k in ExtendedNP ensures |k| >= 2 && 'n' <= k[|k| - 2] <= 'p' {
      assert k in {".nl", ".pk", ".no", ".pl", ".ph", ".nz", ".pt"};
    }
  }

  lemma ExtendedNPCoherent()
    ensures Coherent(ExtendedNP)
  {
    forall k | k in ExtendedNP ensures KeyAgreesWithTop(ExtendedNP, k) {
      if k == ".nl" { KeyAgreesAt(ExtendedNP, k, 0, k); }
      else if k == ".pk" { KeyAgreesAt(ExtendedNP, k, 0, k); }
      else if k == ".no" { KeyAgreesAt(ExtendedNP, k, 0, k); }
      else if k == ".pl" { KeyAgreesAt(ExtendedNP, k, 0, k); }
      else if k == ".ph" { KeyAgreesAt(ExtendedNP, k, 0, k); }
      else if k == ".nz" { KeyAgreesAt(ExtendedNP, k, 0, k); }
      else { assert k == ".pt"; KeyAgreesAt(ExtendedNP, k, 0, k); }
    }
  }

  lemma ExtendedRSBand()
    ensures Band(ExtendedRS, 'r', 's')
  {
    forall k | k in ExtendedRS ensures |k| >= 2 && 'r' <= k[|k| - 2] <= 's' {
      assert k in {".sg", ".com.sg", ".ru", ".se", ".ro", ".sa"};
    }
  }

  lemma ExtendedRSCoherent()
    ensures Coherent(ExtendedRS)
  {
    forall k | k in ExtendedRS ensures KeyAgreesWithTop(ExtendedRS, k) {
      if k == ".sg" { KeyAgreesAt(ExtendedRS, k, 0, k); }
      else if k == ".com.sg" { KeyAgreesAt(ExtendedRS, k, 4, ".sg"); }
      else if k == ".ru" { KeyAgreesAt(ExtendedRS, k, 0, k); }
      else if k == ".se" { KeyAgreesAt(ExtendedRS, k, 0, k); }
      else if k == ".ro" { KeyAgreesAt(ExtendedRS, k, 0, k); }
      else { assert k == ".sa"; KeyAgreesAt(ExtendedRS, k, 0, k); }
    }
  }

  lemma ExtendedTUBand()
    ensures Band(ExtendedTU, 't', 'u')
  {
    forall k | k in ExtendedTU ensures |k| >= 2 && 't' <= k[|k| - 2] <= 'u' {
      assert k in {".ac.uk", ".co.uk", ".uk", ".edu.tw", ".tw", ".tr", ".th", ".ua"};
    }
  }

  lemma ExtendedTUCoherent()
    ensures Coherent(ExtendedTU)
  {
    forall k | k in ExtendedTU ensures KeyAgreesWithTop(ExtendedTU, k) {
      if k == ".ac.uk" { KeyAgreesAt(ExtendedTU, k, 3, ".uk"); }
      else if k == ".co.uk" { KeyAgreesAt(ExtendedTU, k, 3, ".uk"); }
      else if k == ".uk" { KeyAgreesAt(ExtendedTU, k, 0, k); }
      else if k == ".edu.tw" { KeyAgreesAt(ExtendedTU, k, 4, ".tw"); }
      else if k == ".tw" { KeyAgreesAt(ExtendedTU, k, 0, k); }
      else if k == ".tr" { KeyAgreesAt(ExtendedTU, k, 0, k); }
      else if k == ".th" { KeyAgreesAt(ExtendedTU, k, 0, k); }
      else { assert k == ".ua"; KeyAgreesAt(ExtendedTU, k, 0, k); }
    }
  }

  lemma ExtendedVZBand()
    ensures Band(ExtendedVZ, 'v', 'z')
  {
    forall k | k in ExtendedVZ ensures |k| >= 2 && 'v' <= k[|k| - 2] <= 'z' {
      assert k in {".za", ".ac.za", ".vn"};
    }
  }

  lemma ExtendedVZCoherent()
    ensures Coherent(ExtendedVZ)
  {
    forall k | k in ExtendedVZ ensures KeyAgreesWithTop(ExtendedVZ, k) {
      if k == ".za" { KeyAgreesAt(ExtendedVZ, k, 0, k); }
      else if k == ".ac.za" { KeyAgreesAt(ExtendedVZ, k, 3, ".za"); }
      else { assert k == ".vn"; KeyAgreesAt(ExtendedVZ, k, 0, k); }
    }
  }

  lemma ExtendedACBand()
    ensures Band(ExtendedAB + ExtendedC, 'a', 'c')
  {
    ExtendedABBand();
    ExtendedCBand();
    BandUnion(ExtendedAB, ExtendedC, 'a', 'b', 'c');
  }

  lemma ExtendedACCoherent()
    ensures Coherent(ExtendedAB + ExtendedC)
  {
    ExtendedABCoherent();
    ExtendedCCoherent();
    ExtendedABBand();
    ExtendedCBand();
    CoherentUnion(ExtendedAB, ExtendedC, 'a', 'b', 'c');
  }

  lemma ExtendedDHBand()
    ensures Band(ExtendedDF + ExtendedGH, 'd', 'h')
  {
    ExtendedDFBand();
    ExtendedGHBand();
    BandUnion(ExtendedDF, ExtendedGH, 'd', 'f', 'h');
  }

  lemma ExtendedDHCoherent()
    ensures Coherent(ExtendedDF + ExtendedGH)
  {
    ExtendedDFCoherent();
    ExtendedGHCoherent();
    ExtendedDFBand();
    ExtendedGHBand();
    CoherentUnion(ExtendedDF, ExtendedGH, 'd', 'f', 'h');
  }

  lemma ExtendedAHBand()
    ensures Band((ExtendedAB + ExtendedC) + (ExtendedDF + ExtendedGH), 'a', 'h')
  {
    ExtendedACBand();
    ExtendedDHBand();
    BandUnion(ExtendedAB + ExtendedC, ExtendedDF + ExtendedGH, 'a', 'c', 'h');
  }

  lemma ExtendedAHCoherent()
    ensures Coherent((ExtendedAB + ExtendedC) + (ExtendedDF + ExtendedGH))
  {
    ExtendedACCoherent();
    ExtendedDHCoherent();
    ExtendedACBand();
    ExtendedDHBand();
    CoherentUnion(ExtendedAB + ExtendedC, ExtendedDF + ExtendedGH, 'a', 'c', 'h');
  }

  lemma ExtendedIMBand()
    ensures Band(ExtendedI + ExtendedJM, 'i', 'm')
  {
    ExtendedIBand();
    ExtendedJMBand();
    BandUnion(ExtendedI, ExtendedJM, 'i', 'i', 'm');
  }

  lemma ExtendedIMCoherent()
    ensures Coherent(ExtendedI + ExtendedJM)
  {
    ExtendedICoherent();
    ExtendedJMCoherent();
    ExtendedIBand();
    ExtendedJMBand();
    CoherentUnion(ExtendedI, ExtendedJM, 'i', 'i', 'm');
  }

  lemma ExtendedNSBand()
    ensures Band(ExtendedNP + ExtendedRS, 'n', 's')
  {
    ExtendedNPBand();
    ExtendedRSBand();
    BandUnion(ExtendedNP, ExtendedRS, 'n', 'p', 's');
  }

  lemma ExtendedNSCoherent()
    ensures Coherent(ExtendedNP + ExtendedRS)
  {
    ExtendedNPCoherent();
    ExtendedRSCoherent();
    ExtendedNPBand();
    ExtendedRSBand();
    CoherentUnion(ExtendedNP, ExtendedRS, 'n', 'p', 's');
  }

  lemma ExtendedTZBand()
    ensures Band(ExtendedTU + ExtendedVZ, 't', 'z')
  {
    ExtendedTUBand();
    ExtendedVZBand();
    BandUnion(ExtendedTU, ExtendedVZ, 't', 'u', 'z');
  }

  lemma ExtendedTZCoherent()
    ensures Coherent(ExtendedTU + ExtendedVZ)
  {
    ExtendedTUCoherent();
    ExtendedVZCoherent();
    ExtendedTUBand();
    ExtendedVZBand();
    CoherentUnion(ExtendedTU, ExtendedVZ, 't', 'u', 'z');
  }

  lemma ExtendedNZBand()
    ensures Band((ExtendedNP + ExtendedRS) + (ExtendedTU + ExtendedVZ), 'n', 'z')
  {
    ExtendedNSBand();
    ExtendedTZBand();
    BandUnion(ExtendedNP + ExtendedRS, ExtendedTU + ExtendedVZ, 'n', 's', 'z');
  }

  lemma ExtendedNZCoherent()
    ensures Coherent((ExtendedNP + ExtendedRS) + (ExtendedTU + ExtendedVZ))
  {
    ExtendedNSCoherent();
    ExtendedTZCoherent();
    ExtendedNSBand();
    ExtendedTZBand();
    CoherentUnion(ExtendedNP + ExtendedRS, ExtendedTU + ExtendedVZ, 'n', 's', 'z');
  }

  lemma ExtendedIZBand()
    ensures Band((ExtendedI + ExtendedJM) + ((ExtendedNP + ExtendedRS) + (ExtendedTU + ExtendedVZ)), 'i', 'z')
  {
    ExtendedIMBand();
    ExtendedNZBand();
    BandUnion(ExtendedI + ExtendedJM, (ExtendedNP + ExtendedRS) + (ExtendedTU + ExtendedVZ), 'i', 'm', 'z');
  }

  lemma ExtendedIZCoherent()
    ensures Coherent((ExtendedI + ExtendedJM) + ((ExtendedNP + ExtendedRS) + (ExtendedTU + ExtendedVZ)))
  {
    ExtendedIMCoherent();
    ExtendedNZCoherent();
    ExtendedIMBand();
    ExtendedNZBand();
    CoherentUnion(ExtendedI + ExtendedJM, (ExtendedNP + ExtendedRS) + (ExtendedTU + ExtendedVZ), 'i', 'm', 'z');
  }

  /** In simple_test.py's table, too, every key that ends a domain names the same country. */
  lemma ExtendedTableCoherent()
    ensures Coherent(ExtendedTable)
  {
    ExtendedAHCoherent();
    ExtendedIZCoherent();
    ExtendedAHBand();
    ExtendedIZBand();
    CoherentUnion((ExtendedAB + ExtendedC) + (ExtendedDF + ExtendedGH), (ExtendedI + ExtendedJM) + ((ExtendedNP + ExtendedRS) + (ExtendedTU + ExtendedVZ)), 'a', 'h', 'z');
  }
  // ---------------------------------------------------------------------
  // simple_test.py's country checks (simple_test.py:130-134)
  // ---------------------------------------------------------------------

  // A key is found by showing it in its group and outside every part the
  // union lays over that group; each step is a lemma of its own.

  lemma AuKeyInAH()
    ensures ".au" in ExtendedAB + ExtendedC + (ExtendedDF + ExtendedGH) && (ExtendedAB + ExtendedC + (ExtendedDF + ExtendedGH))[".au"] == "Australia"
  {
    assert ".au" in ExtendedAB && ExtendedAB[".au"] == "Australia";
    assert ".au" !in ExtendedC && ".au" !in ExtendedDF && ".au" !in ExtendedGH;
  }

  lemma AuKeyOutsideIZ()
    ensures ".au" !in ExtendedI + ExtendedJM + (ExtendedNP + ExtendedRS + (ExtendedTU + ExtendedVZ))
  {
    assert ".au" !in ExtendedI && ".au" !in ExtendedJM && ".au" !in ExtendedNP;
    assert ".au" !in ExtendedRS && ".au" !in ExtendedTU && ".au" !in ExtendedVZ;
  }

  lemma BrKeyInAH()
    ensures ".br" in ExtendedAB + ExtendedC + (ExtendedDF + ExtendedGH) && (ExtendedAB + ExtendedC + (ExtendedDF + ExtendedGH))[".br"] == "Brazil"
  {
    assert ".br" in ExtendedAB && ExtendedAB[".br"] == "Brazil";
    assert ".br" !in ExtendedC && ".br" !in ExtendedDF && ".br" !in ExtendedGH;
  }

  lemma BrKeyOutsideIZ()
    ensures ".br" !in ExtendedI + ExtendedJM + (ExtendedNP + ExtendedRS + (ExtendedTU + ExtendedVZ))
  {
    assert ".br" !in ExtendedI && ".br" !in ExtendedJM && ".br" !in ExtendedNP;
    assert ".br" !in ExtendedRS && ".br" !in ExtendedTU && ".br" !in ExtendedVZ;
  }

  lemma PkKeyInNP()
    ensures ".pk" in ExtendedNP && ExtendedNP[".pk"] == "Pakistan"
  {
  }

  lemma PkKeyOutsideNP()
    ensures ".pk" !in ExtendedRS && ".pk" !in ExtendedTU && ".pk" !in ExtendedVZ
  {
  }

  lemma RuKeyInRS()
    ensures ".ru" in ExtendedRS && ExtendedRS[".ru"] == "Russia"
  {
  }

  lemma RuKeyOutsideRS()
    ensures ".ru" !in ExtendedTU && ".ru" !in ExtendedVZ
  {
  }

  lemma AcUkKeyInTU()
    ensures ".ac.uk" in ExtendedTU && ExtendedTU[".ac.uk"] == "United Kingdom"
  {
  }

  lemma AcUkKeyOutsideTU()
    ensures ".ac.uk" !in ExtendedVZ
  {
  }

  lemma ExampleKeyAu()
    ensures ".au" in ExtendedTable && ExtendedTable[".au"] == "Australia"
  {
    AuKeyInAH();
    AuKeyOutsideIZ();
  }

  lemma ExampleKeyBr()
    ensures ".br" in ExtendedTable && ExtendedTable[".br"] == "Brazil"
  {
    BrKeyInAH();
    BrKeyOutsideIZ();
  }

  lemma ExampleKeyPk()
    ensures ".pk" in ExtendedTable && ExtendedTable[".pk"] == "Pakistan"
  {
    PkKeyInNP();
    PkKeyOutsideNP();
  }

  lemma ExampleKeyRu()
    ensures ".ru" in ExtendedTable && ExtendedTable[".ru"] == "Russia"
  {
    RuKeyInRS();
    RuKeyOutsideRS();
  }

  lemma ExampleKeyAcUk()
    ensures ".ac.uk" in ExtendedTable && ExtendedTable[".ac.uk"] == "United Kingdom"
  {
    AcUkKeyInTU();
    AcUkKeyOutsideTU();
  }

  /** A domain whose last label starts with 'w' is ended by no key of a group outside 'v' to 'z'. */
  lemma MissesBelowI(d: string)
    requires |d| >= 2 && d[|d| - 2] == 'w'
    ensures forall k | k in ExtendedAB :: !IsSuffix(k, d)
    ensures forall k | k in ExtendedC :: !IsSuffix(k, d)
    ensures forall k | k in ExtendedDF :: !IsSuffix(k, d)
    ensures forall k | k in ExtendedGH :: !IsSuffix(k, d)
  {
    ExtendedABBand();
    BandMisses(ExtendedAB, 'a', 'b', d);
    ExtendedCBand();
    BandMisses(ExtendedC, 'c', 'c', d);
    ExtendedDFBand();
    BandMisses(ExtendedDF, 'd', 'f', d);
    ExtendedGHBand();
    BandMisses(ExtendedGH, 'g', 'h', d);
  }

  lemma MissesFromI(d: string)
    requires |d| >= 2 && d[|d| - 2] == 'w'
    ensures forall k | k in ExtendedI :: !IsSuffix(k, d)
    ensures forall k | k in ExtendedJM :: !IsSuffix(k, d)
    ensures forall k | k in ExtendedNP :: !IsSuffix(k, d)
    ensures forall k | k in ExtendedRS :: !IsSuffix(k, d)
    ensures forall k | k in ExtendedTU :: !IsSuffix(k, d)
  {
    ExtendedIBand();
    BandMisses(ExtendedI, 'i', 'i', d);
    ExtendedJMBand();
    BandMisses(ExtendedJM, 'j', 'm', d);
    ExtendedNPBand();
    BandMisses(ExtendedNP, 'n', 'p', d);
    ExtendedRSBand();
    BandMisses(ExtendedRS, 'r', 's', d);
    ExtendedTUBand();
    BandMisses(ExtendedTU, 't', 'u', d);
  }

  /** No key of the group from 'v' to 'z' ends a domain ending in "wn". */
  lemma MissesVZ(d: string)
    requires |d| >= 2 && d[|d| - 2] == 'w' && d[|d| - 1] == 'n'
    ensures forall k | k in ExtendedVZ :: !IsSuffix(k, d)
  {
    forall k | k in ExtendedVZ ensures !IsSuffix(k, d) {
      SuffixIff(k, d);
      assert k in {".vn", ".za", ".ac.za"};
      if |k| <= |d| {
        assert d[|d| - |k|..][|k| - 2] == d[|d| - 2];
        assert d[|d| - |k|..][|k| - 1] == d[|d| - 1];
      }
    }
  }

  /** No key of the table ends a domain ending in "wn". */
  lemma MissesWn(d: string)
    requires |d| >= 2 && d[|d| - 2] == 'w' && d[|d| - 1] == 'n'
    ensures forall k | k in ExtendedTable :: !IsSuffix(k, d)
  {
    MissesBelowI(d);
    MissesFromI(d);
    MissesVZ(d);
  }

  lemma ExampleDomainEndsPk()
    ensures IsSuffix(".pk", Lower("test.pk"))
  {
    assert "test" + ".pk" == "test.pk";
    LowerAppend("test", ".pk");
    assert Lower(".pk") == ".pk";
    assert Lower("test.pk")[4..] == ".pk";
    SuffixIff(".pk", Lower("test.pk"));
  }

  lemma ExampleDomainEndsBr()
    ensures IsSuffix(".br", Lower("test.br"))
  {
    assert "test" + ".br" == "test.br";
    LowerAppend("test", ".br");
    assert Lower(".br") == ".br";
    assert Lower("test.br")[4..] == ".br";
    SuffixIff(".br", Lower("test.br"));
  }

  lemma ExampleDomainEndsRu()
    ensures IsSuffix(".ru", Lower("test.ru"))
  {
    assert "test" + ".ru" == "test.ru";
    LowerAppend("test", ".ru");
    assert Lower(".ru") == ".ru";
    assert Lower("test.ru")[4..] == ".ru";
    SuffixIff(".ru", Lower("test.ru"));
  }

  lemma ExampleDomainEndsAcUk()
    ensures IsSuffix(".ac.uk", Lower("test.ac.uk"))
  {
    assert "test" + ".ac.uk" == "test.ac.uk";
    LowerAppend("test", ".ac.uk");
    assert Lower(".ac.uk") == ".ac.uk";
    assert Lower("test.ac.uk")[4..] == ".ac.uk";
    SuffixIff(".ac.uk", Lower("test.ac.uk"));
  }

  lemma ExampleDomainEndsAu()
    ensures IsSuffix(".au", Lower("test.edu.au"))
  {
    assert "test.edu" + ".au" == "test.edu.au";
    LowerAppend("test.edu", ".au");
    assert Lower(".au") == ".au";
    assert Lower("test.edu.au")[8..] == ".au";
    SuffixIff(".au", Lower("test.edu.au"));
  }

  /** No key of the table ends "test.unknown", lower-cased. */
  lemma UnknownDomainMisses()
    ensures forall k | k in ExtendedTable :: !IsSuffix(k, Lower("test.unknown"))
  {
    LowerAt("test.unknown", 10);
    LowerAt("test.unknown", 11);
    MissesWn(Lower("test.unknown"));
  }

  /** The six domains simple_test.py prints, with the countries the table gives them. */
  lemma ExtendedTableExamples()
    ensures GetCountry(ExtendedTable, "test.pk") == "Pakistan"
    ensures GetCountry(ExtendedTable, "test.br") == "Brazil"
    ensures GetCountry(ExtendedTable, "test.ru") == "Russia"
    ensures GetCountry(ExtendedTable, "test.ac.uk") == "United Kingdom"
    ensures GetCountry(ExtendedTable, "test.edu.au") == "Australia"
    ensures GetCountry(ExtendedTable, "test.unknown") == Fallback
  {
    ExtendedTableCoherent();
    ExampleKeyAu();
    ExampleKeyBr();
    ExampleKeyPk();
    ExampleKeyRu();
    ExampleKeyAcUk();
    ExampleDomainEndsPk();
    ExampleDomainEndsBr();
    ExampleDomainEndsRu();
    ExampleDomainEndsAcUk();
    ExampleDomainEndsAu();
    UnknownDomainMisses();
    AnyMatchingKeyAgrees(ExtendedTable, "test.pk", ".pk");
    AnyMatchingKeyAgrees(ExtendedTable, "test.br", ".br");
    AnyMatchingKeyAgrees(ExtendedTable, "test.ru", ".ru");
    AnyMatchingKeyAgrees(ExtendedTable, "test.ac.uk", ".ac.uk");
    AnyMatchingKeyAgrees(ExtendedTable, "test.edu.au", ".au");
  }
}
