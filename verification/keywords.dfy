/** The merchant keyword table and its first-match lookup (etl.py:23-31, and
    the loops at etl.py:38-40 and etl.py:47-49). */
module Keywords {
  import opened Wrappers
  import opened AsciiText

  /** Ordered (keyword, category) pairs; earlier entries take priority. */
  type KeywordTable = seq<(string, string)>

  /** A keyword is a non-empty run of upper-case ASCII letters. */
  predicate IsKeyword(k: string) {
    |k| > 0 && forall i :: 0 <= i < |k| ==> IsUpperLetter(k[i])
  }

  predicate WellFormed(table: KeywordTable) {
    forall i :: 0 <= i < |table| ==> IsKeyword(table[i].0)
  }

  /** A table fit for the lookups: every key is a keyword. */
  type WellFormedTable = t: KeywordTable | WellFormed(t) witness []

  /** `CATEGORY_MAP` in its literal's order, which is the order a Python dict iterates in. */
  const CategoryMap: WellFormedTable := CategoryEntries()

  /** The entries of `CATEGORY_MAP`: seven keywords, each a run of upper-case
      letters and, being dict keys, no two alike. */
  function CategoryEntries(): (t: KeywordTable)
    ensures |t| == 7 && WellFormed(t)
    ensures forall i, j :: 0 <= i < j < |t| ==> t[i].0 != t[j].0
  {
    var t := [
      ("NETFLIX", "Entertainment"),
      ("SPOTIFY", "Entertainment"),
      ("STARBUCKS", "Food"),
      ("UBER", "Transport"),
      ("AMAZON", "Shopping"),
      ("RENT", "Housing"),
      ("SALARY", "Income")
    ];
    FirstKeywords(t[0].0, t[1].0, t[2].0);
    LastKeywords(t[3].0, t[4].0, t[5].0, t[6].0);
    t
  }

  lemma FirstKeywords(a: string, b: string, c: string)
    requires a == "NETFLIX" && b == "SPOTIFY" && c == "STARBUCKS"
    ensures IsKeyword(a) && IsKeyword(b) && IsKeyword(c)
  {
  }

  lemma LastKeywords(a: string, b: string, c: string, d: string)
    requires a == "UBER" && b == "AMAZON" && c == "RENT" && d == "SALARY"
    ensures IsKeyword(a) && IsKeyword(b) && IsKeyword(c) && IsKeyword(d)
  {
  }

  /** Entry `i` is the first entry whose keyword occurs in `s`. */
  predicate IsFirstMatch(table: KeywordTable, s: string, i: int) {
    && 0 <= i < |table|
    && Contains(s, table[i].0)
    && forall j :: 0 <= j < i ==> !Contains(s, table[j].0)
  }

  /** No keyword of the table occurs in `s`. */
  predicate NoMatch(table: KeywordTable, s: string) {
    forall j :: 0 <= j < |table| ==> !Contains(s, table[j].0)
  }

  function FirstMatchFrom(table: KeywordTable, s: string, from: nat): (r: Option<nat>)
    requires from <= |table|
    ensures r.Some? ==> from <= r.value < |table| && Contains(s, table[r.value].0)
    ensures r.Some? ==> forall j :: from <= j < r.value ==> !Contains(s, table[j].0)
    ensures r.None? ==> forall j :: from <= j < |table| ==> !Contains(s, table[j].0)
    decreases |table| - from
  {
    if from == |table| then None
    else if Contains(s, table[from].0) then Some(from)
    else FirstMatchFrom(table, s, from + 1)
  }

  /** The `for key in CATEGORY_MAP` scan: the index of the first entry whose
      keyword occurs in `s`, or None when none does. */
  function FirstMatch(table: KeywordTable, s: string): (r: Option<nat>)
    ensures r.Some? ==> IsFirstMatch(table, s, r.value)
    ensures r.None? ==> NoMatch(table, s)
  {
    FirstMatchFrom(table, s, 0)
  }

  /** The first match is unique, so the scan finds exactly it. */
  lemma FirstMatchFinds(table: KeywordTable, s: string, i: int)
    requires IsFirstMatch(table, s, i)
    ensures FirstMatch(table, s) == Some(i)
  {
  }

  /** If the first match of `s` is entry `i` and `m` is a piece of `s` that still
      contains keyword `i`, then `i` is also the first match of `m`: an earlier
      keyword inside `m` would already have been inside `s`. */
  lemma {:induction false} FirstMatchOfPiece(table: KeywordTable, s: string, m: string, i: int)
    requires IsFirstMatch(table, s, i)
    requires Contains(s, m) && Contains(m, table[i].0)
    ensures IsFirstMatch(table, m, i)
  {
    forall j | 0 <= j < i
      ensures !Contains(m, table[j].0)
    {
      if Contains(m, table[j].0) {
        ContainsTransitive(s, m, table[j].0);
      }
    }
  }

  /** A piece of a text that no keyword occurs in has no keyword either. */
  lemma {:induction false} NoMatchOfPiece(table: KeywordTable, s: string, m: string)
    requires NoMatch(table, s) && Contains(s, m)
    ensures NoMatch(table, m)
  {
    forall j | 0 <= j < |table|
      ensures !Contains(m, table[j].0)
    {
      if Contains(m, table[j].0) {
        ContainsTransitive(s, m, table[j].0);
      }
    }
  }
}
