/** `normalize_merchant` and `categorize` (etl.py:33-50), over an explicit
    ordered keyword table. */
module Merchant {
  import opened Wrappers
  import opened AsciiText
  import opened Keywords

  /** The category of a merchant no keyword matches. */
  const Other: string := "Other"

  /** The text the keyword scan looks at: `desc.strip().upper()`. */
  function Scanned(d: string): (s: string)
    ensures |s| == |Strip(d)|
    ensures s == [] || !IsSpace(s[0])
    ensures Upper(s) == s
  {
    UpperIdempotent(Strip(d));
    Upper(Strip(d))
  }

  /** The merchant label for an already cleaned and upper-cased description:
      the title-cased first keyword that occurs in it, else its first word in
      title case, else (for the empty text) none. */
  function Label(table: KeywordTable, s: string): (r: Option<string>)
    requires WellFormed(table)
    requires s == [] || !IsSpace(s[0])
    ensures r.None? <==> s == []
    ensures r.Some? ==> r.value != [] && NoSpace(r.value)
  {
    match FirstMatch(table, s)
    case Some(i) =>
      assert IsKeyword(table[i].0);
      Some(Title(table[i].0))
    case None =>
      if s == [] then
        None
      else
        assert !IsSpace(Title(s)[0]);
        Some(FirstWord(Title(s)))
  }

  lemma LabelOfMatch(table: KeywordTable, s: string, i: int)
    requires WellFormed(table) && (s == [] || !IsSpace(s[0]))
    requires IsFirstMatch(table, s, i)
    ensures Label(table, s) == Some(Title(table[i].0))
  {
    FirstMatchFinds(table, s, i);
  }

  lemma LabelOfNoMatch(table: KeywordTable, s: string)
    requires WellFormed(table) && |s| > 0 && !IsSpace(s[0])
    requires NoMatch(table, s)
    ensures !IsSpace(Title(s)[0])
    ensures Label(table, s) == Some(FirstWord(Title(s)))
  {
  }

  /** `normalize_merchant(desc)`. A missing cell (`None`) is pandas' NaN, which
      fails the `isinstance(desc, str)` test. */
  function NormalizeMerchant(table: KeywordTable, desc: Option<string>): (r: Option<string>)
    requires WellFormed(table)
    ensures r.None? <==> desc.None? || Strip(desc.value) == []
    ensures r.Some? ==> r.value != [] && NoSpace(r.value)
  {
    match desc
    case None => None
    case Some(d) => Label(table, Scanned(d))
  }

  /** `categorize(merchant)`: `not merchant` covers both None and ""; otherwise
      the category of the first entry whose keyword occurs in the upper-cased
      merchant, or "Other" when none does. */
  function Categorize(table: KeywordTable, merchant: Option<string>): (r: Option<string>)
    ensures r.None? <==> merchant.None? || merchant.value == []
    ensures r.Some? ==> r.value == Other || exists i :: 0 <= i < |table| && table[i].1 == r.value
    ensures merchant.Some? && merchant.value != [] ==>
              forall i :: IsFirstMatch(table, Upper(merchant.value), i) ==> r == Some(table[i].1)
    ensures merchant.Some? && merchant.value != [] && NoMatch(table, Upper(merchant.value)) ==> r == Some(Other)
  {
    match merchant
    case None => None
    case Some(m) =>
      if m == [] then
        None
      else
        match FirstMatch(table, Upper(m))
        case Some(i) => Some(table[i].1)
        case None => Some(Other)
  }

  // ---------------------------------------------------------------------------
  // The two branches of normalize_merchant
  // ---------------------------------------------------------------------------

  /** When keywords occur in the cleaned description, the merchant is the
      title-cased FIRST of them in table order; later ones are ignored. */
  lemma NormalizeKeyword(table: KeywordTable, d: string, i: int)
    requires WellFormed(table)
    requires IsFirstMatch(table, Scanned(d), i)
    ensures NormalizeMerchant(table, Some(d)) == Some(Title(table[i].0))
  {
    FirstMatchFinds(table, Scanned(d), i);
  }

  /** When no keyword occurs, the merchant is the first whitespace-delimited
      word of the title-cased cleaned description. */
  lemma NormalizeFallback(table: KeywordTable, d: string)
    requires WellFormed(table)
    requires NoMatch(table, Scanned(d)) && Strip(d) != []
    ensures NormalizeMerchant(table, Some(d)).Some?
    ensures IsFirstWord(NormalizeMerchant(table, Some(d)).value, Title(Scanned(d)))
  {
    var s := Scanned(d);
    assert |s| > 0;
    LabelOfNoMatch(table, s);
    assert NormalizeMerchant(table, Some(d)) == Label(table, s);
  }

  /** The first word of `Title(s)`, for an upper-cased `s`, upper-cases back to
      the matching prefix of `s` and title-cases back to itself. */
  lemma FirstWordOfTitle(s: string, w: string)
    requires Upper(s) == s
    requires IsFirstWord(w, Title(s))
    ensures Upper(w) == s[..|w|]
    ensures Title(s[..|w|]) == w
    ensures Contains(s, s[..|w|])
  {
    var n := |w|;
    UpperOfPrefix(Title(s), n);
    UpperOfTitle(s);
    UpperOfPrefix(s, n);
    TitleOfPrefix(s, n);
    assert OccursAt(s, s[..n], 0);
  }

  /** A keyword's title-cased label upper-cases back to the keyword, and the
      keyword is still its own first match. */
  lemma KeywordLabel(table: KeywordTable, s: string, i: int)
    requires WellFormed(table)
    requires IsFirstMatch(table, s, i)
    ensures Upper(Title(table[i].0)) == table[i].0
    ensures NoSpace(Title(table[i].0)) && Title(table[i].0) != []
    ensures FirstMatch(table, table[i].0) == Some(i)
  {
    var k := table[i].0;
    UpperOfTitle(k);
    UpperOfNoLower(k);
    ContainsSelf(k);
    FirstMatchOfPiece(table, s, k, i);
    FirstMatchFinds(table, k, i);
  }

  // ---------------------------------------------------------------------------
  // categorize after normalize_merchant
  // ---------------------------------------------------------------------------

  /** The category is null exactly when the merchant is. */
  lemma CategoryNullIffMerchantNull(table: KeywordTable, desc: Option<string>)
    requires WellFormed(table)
    ensures Categorize(table, NormalizeMerchant(table, desc)).None? <==> NormalizeMerchant(table, desc).None?
  {
  }

  /** A merchant found by keyword classifies to that keyword's category. */
  lemma KeywordMerchantCategory(table: KeywordTable, d: string, i: int)
    requires WellFormed(table)
    requires IsFirstMatch(table, Scanned(d), i)
    ensures Categorize(table, NormalizeMerchant(table, Some(d))) == Some(table[i].1)
  {
    NormalizeKeyword(table, d, i);
    KeywordLabel(table, Scanned(d), i);
  }

  /** A first-word merchant always classifies as "Other": its upper-cased form
      is a piece of the description, which holds no keyword. */
  lemma FallbackMerchantCategory(table: KeywordTable, d: string)
    requires WellFormed(table)
    requires NoMatch(table, Scanned(d)) && Strip(d) != []
    ensures Categorize(table, NormalizeMerchant(table, Some(d))) == Some(Other)
  {
    var s := Scanned(d);
    NormalizeFallback(table, d);
    var w := NormalizeMerchant(table, Some(d)).value;
    FirstWordOfTitle(s, w);
    NoMatchOfPiece(table, s, s[..|w|]);
  }

  /** Every description lands in exactly one of the three outcomes: null,
      the first matching keyword's category, or "Other". */
  lemma {:induction false} CategoryOfDescription(table: KeywordTable, desc: Option<string>)
    requires WellFormed(table)
    ensures desc.None? || Strip(desc.value) == [] ==> Categorize(table, NormalizeMerchant(table, desc)) == None
    ensures desc.Some? && Strip(desc.value) != [] && NoMatch(table, Scanned(desc.value)) ==>
              Categorize(table, NormalizeMerchant(table, desc)) == Some(Other)
    ensures forall i :: desc.Some? && IsFirstMatch(table, Scanned(desc.value), i) ==>
              Categorize(table, NormalizeMerchant(table, desc)) == Some(table[i].1)
  {
    if desc.Some? {
      var d := desc.value;
      if Strip(d) != [] && NoMatch(table, Scanned(d)) {
        FallbackMerchantCategory(table, d);
      }
      forall i | IsFirstMatch(table, Scanned(d), i)
        ensures Categorize(table, NormalizeMerchant(table, desc)) == Some(table[i].1)
      {
        KeywordMerchantCategory(table, d, i);
      }
    }
  }

  // ---------------------------------------------------------------------------
  // Idempotence
  // ---------------------------------------------------------------------------

  /** A label without whitespace is scanned as its own upper-cased form. */
  lemma NormalizeOfWord(table: KeywordTable, m: string)
    requires WellFormed(table) && NoSpace(m)
    ensures NormalizeMerchant(table, Some(m)) == Label(table, Upper(m))
  {
    StripNoSpace(m);
  }

  /** A keyword label normalizes to itself. */
  lemma KeywordLabelStable(table: KeywordTable, s: string, i: int)
    requires WellFormed(table)
    requires IsFirstMatch(table, s, i)
    ensures NormalizeMerchant(table, Some(Title(table[i].0))) == Some(Title(table[i].0))
  {
    var m := Title(table[i].0);
    KeywordLabel(table, s, i);
    NormalizeOfWord(table, m);
  }

  /** The first word `m` of a title-cased keyword-free text `s` upper-cases back
      to the prefix of `s` it came from, which holds no keyword either. */
  lemma FirstWordScan(table: KeywordTable, s: string, m: string)
    requires Upper(s) == s && NoMatch(table, s)
    requires IsFirstWord(m, Title(s))
    ensures Upper(m) == s[..|m|] && Title(s[..|m|]) == m
    ensures NoMatch(table, s[..|m|])
  {
    FirstWordOfTitle(s, m);
    NoMatchOfPiece(table, s, s[..|m|]);
  }

  /** A first-word label normalizes to itself. */
  lemma FirstWordLabelStable(table: KeywordTable, s: string)
    requires WellFormed(table)
    requires Upper(s) == s && |s| > 0 && !IsSpace(s[0])
    requires NoMatch(table, s)
    ensures !IsSpace(Title(s)[0])
    ensures NormalizeMerchant(table, Some(FirstWord(Title(s)))) == Some(FirstWord(Title(s)))
  {
    assert !IsSpace(Title(s)[0]);
    var m := FirstWord(Title(s));
    NormalizeOfWord(table, m);
    FirstWordScan(table, s, m);
    var p := s[..|m|];
    assert |p| > 0;
    LabelOfNoMatch(table, p);
    SplitOfWord(m);
  }

  /** Normalizing the merchant label of any description gives the same label
      back; a missing label stays missing. */
  lemma NormalizeIdempotent(table: KeywordTable, desc: Option<string>)
    requires WellFormed(table)
    ensures NormalizeMerchant(table, NormalizeMerchant(table, desc)) == NormalizeMerchant(table, desc)
  {
    if NormalizeMerchant(table, desc).Some? {
      var s := Scanned(desc.value);
      match FirstMatch(table, s)
      case Some(i) =>
        KeywordLabelStable(table, s, i);
      case None =>
        FirstWordLabelStable(table, s);
    }
  }

  // ---------------------------------------------------------------------------
  // Worked examples on the repository's table
  // ---------------------------------------------------------------------------

  /** The entries of the table the examples use. */
  lemma CategoryMapEntries()
    ensures CategoryMap[0] == ("NETFLIX", "Entertainment")
    ensures CategoryMap[3] == ("UBER", "Transport")
  {
  }

  lemma UberUpper(d: string)
    requires d == "UBER EATS 123"
    ensures Upper(d) == d
  {
  }

  lemma UberScan(d: string)
    requires d == "UBER EATS 123"
    ensures Scanned(d) == d
  {
    StripUnpadded(d);
    UberUpper(d);
  }

  lemma UberMatch(s: string)
    requires s == "UBER EATS 123"
    ensures IsFirstMatch(CategoryMap, s, 3)
  {
    assert OccursAt(s, "UBER", 0);
    MissingCharNotContained(s, "NETFLIX", 'N');
    MissingCharNotContained(s, "SPOTIFY", 'P');
    MissingCharNotContained(s, "STARBUCKS", 'K');
  }

  lemma UberMerchant(d: string)
    requires d == "UBER EATS 123"
    ensures NormalizeMerchant(CategoryMap, Some(d)) == Some(Title(CategoryMap[3].0))
    ensures Categorize(CategoryMap, NormalizeMerchant(CategoryMap, Some(d))) == Some(CategoryMap[3].1)
  {
    UberScan(d);
    UberMatch(d);
    NormalizeKeyword(CategoryMap, d, 3);
    KeywordMerchantCategory(CategoryMap, d, 3);
  }

  lemma UberTitle(k: string, t: string)
    requires k == "UBER" && t == "Uber"
    ensures Title(k) == t
  {
  }

  /** "UBER EATS 123" becomes merchant "Uber" in category "Transport". */
  lemma UberEatsExample(d: string)
    requires d == "UBER EATS 123"
    ensures NormalizeMerchant(CategoryMap, Some(d)) == Some("Uber")
    ensures Categorize(CategoryMap, Some("Uber")) == Some("Transport")
  {
    UberMerchant(d);
    CategoryMapEntries();
    var k := CategoryMap[3].0;
    UberTitle(k, "Uber");
  }

  lemma SpotifyUpper(d: string, u: string)
    requires d == "spotify via netflix" && u == "SPOTIFY VIA NETFLIX"
    ensures Upper(d) == u
  {
  }

  lemma SpotifyMatch(s: string)
    requires s == "SPOTIFY VIA NETFLIX"
    ensures IsFirstMatch(CategoryMap, s, 0)
  {
    assert OccursAt(s, "NETFLIX", 12);
  }

  lemma SpotifyScanMatch(d: string, u: string)
    requires d == "spotify via netflix" && u == "SPOTIFY VIA NETFLIX"
    ensures IsFirstMatch(CategoryMap, Scanned(d), 0)
  {
    StripUnpadded(d);
    SpotifyUpper(d, u);
    SpotifyMatch(u);
  }

  lemma SpotifyMerchant(d: string)
    requires d == "spotify via netflix"
    ensures NormalizeMerchant(CategoryMap, Some(d)) == Some(Title(CategoryMap[0].0))
  {
    SpotifyScanMatch(d, "SPOTIFY VIA NETFLIX");
    NormalizeKeyword(CategoryMap, d, 0);
  }

  lemma NetflixTitle(k: string, t: string)
    requires k == "NETFLIX" && t == "Netflix"
    ensures Title(k) == t
  {
  }

  /** A description naming two keywords takes the earlier table entry, not
      the one that comes first in the text. */
  lemma TablePriorityExample(d: string)
    requires d == "spotify via netflix"
    ensures NormalizeMerchant(CategoryMap, Some(d)) == Some("Netflix")
  {
    SpotifyMerchant(d);
    CategoryMapEntries();
    var k := CategoryMap[0].0;
    NetflixTitle(k, "Netflix");
  }

  lemma CoffeeStrip(d: string, m: string)
    requires d == " joe's coffee " && m == "joe's coffee"
    ensures Strip(d) == m
  {
    assert " " + m + " " == d;
    StripUnique(" ", m, " ");
  }

  lemma CoffeeUpper(m: string, u: string)
    requires m == "joe's coffee" && u == "JOE'S COFFEE"
    ensures Upper(m) == u
  {
  }

  lemma CoffeeScan(d: string, u: string)
    requires d == " joe's coffee " && u == "JOE'S COFFEE"
    ensures Scanned(d) == u
  {
    CoffeeStrip(d, "joe's coffee");
    CoffeeUpper("joe's coffee", u);
  }

  /** Each of the first four keywords holds a letter that "JOE'S COFFEE" lacks. */
  lemma CoffeeMissesEarly(s: string)
    requires s == "JOE'S COFFEE"
    ensures !Contains(s, "NETFLIX") && !Contains(s, "SPOTIFY") && !Contains(s, "STARBUCKS") && !Contains(s, "UBER")
  {
    MissingCharNotContained(s, "NETFLIX", 'N');
    MissingCharNotContained(s, "SPOTIFY", 'P');
    MissingCharNotContained(s, "STARBUCKS", 'T');
    MissingCharNotContained(s, "UBER", 'U');
  }

  /** So does each of the last three. */
  lemma CoffeeMissesLate(s: string)
    requires s == "JOE'S COFFEE"
    ensures !Contains(s, "AMAZON") && !Contains(s, "RENT") && !Contains(s, "SALARY")
  {
    MissingCharNotContained(s, "AMAZON", 'A');
    MissingCharNotContained(s, "RENT", 'R');
    MissingCharNotContained(s, "SALARY", 'A');
  }

  lemma CoffeeNoMatch(s: string)
    requires s == "JOE'S COFFEE"
    ensures NoMatch(CategoryMap, s)
  {
    CoffeeMissesEarly(s);
    CoffeeMissesLate(s);
  }

  lemma JoeTitle(p: string, t: string)
    requires p == "JOE'S " && t == "Joe'S "
    ensures Title(p) == t
  {
  }

  /** Only the first six characters of the title-cased text matter to its
      first word, and `title` works on a prefix independently. */
  lemma CoffeeFirstWord(u: string, p: string, t: string)
    requires u == "JOE'S COFFEE" && p == "JOE'S " && t == "Joe'S "
    ensures IsFirstWord("Joe'S", Title(u))
  {
    assert u[..6] == p;
    TitleOfPrefix(u, 6);
    JoeTitle(p, t);
    assert Title(u)[..5] == t[..5] == "Joe'S";
    assert Title(u)[5] == t[5];
  }

  lemma CoffeeFallback(d: string, u: string)
    requires d == " joe's coffee " && u == "JOE'S COFFEE"
    ensures Scanned(d) == u && NoMatch(CategoryMap, u) && IsFirstWord("Joe'S", Title(u))
  {
    CoffeeScan(d, u);
    CoffeeNoMatch(u);
    CoffeeFirstWord(u, "JOE'S ", "Joe'S ");
  }

  /** With no keyword, the first word is kept in Python's title case, which
      capitalises a letter after an apostrophe; its category is "Other". */
  lemma FirstWordExample(d: string)
    requires d == " joe's coffee "
    ensures NormalizeMerchant(CategoryMap, Some(d)) == Some("Joe'S")
    ensures Categorize(CategoryMap, Some("Joe'S")) == Some(Other)
  {
    CoffeeFallback(d, "JOE'S COFFEE");
    NormalizeFallback(CategoryMap, d);
    FallbackMerchantCategory(CategoryMap, d);
    FirstWordUnique(NormalizeMerchant(CategoryMap, Some(d)).value, "Joe'S", Title(Scanned(d)));
  }

  /** Blank and missing descriptions give no merchant and no category. */
  lemma BlankExample()
    ensures NormalizeMerchant(CategoryMap, Some(" \t ")) == None
    ensures NormalizeMerchant(CategoryMap, None) == None
    ensures Categorize(CategoryMap, None) == None
  {
    assert AllSpace(" \t ");
  }
}
