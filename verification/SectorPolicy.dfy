/** The two tests for a financial company, one by substring over text columns and one by membership in the
    configured policy, and when they agree. Lower-casing is a map on characters given as a parameter. */
module SectorPolicy {
  import opened Relational
  import opened TextOrder
  import opened DistressLabels
  import opened RowLabels

  datatype Sectors = Sectors(
    sector: Cell<string>, industry: Cell<string>, gicsSector: Cell<string>, gicsIndustryGroup: Cell<string>,
    gicsSectorCode: Cell<string>, gicsCode: Cell<string>)

  datatype Policy = Policy(terms: set<string>, codes: set<string>)

  const FINANCIAL_TERMS := [
    "bank", "banks", "banking", "insurance", "insurers", "securities", "brokerage", "diversified financials",
    "financial services"]

  /** The configuration file as it ships. */
  const SHIPPED_TERMS := ["Banks", "Insurance", "Securities", "Diversified Financials", "Financial Services"]
  const SHIPPED_CODES := ["40", "4010", "4020", "4030"]

  // ------------------------------------------------------------------ the two tests

  /** What every lower-casing does to single characters. */
  ghost predicate IsLowering(fold: char -> char) {
    && (forall c :: fold(fold(c)) == fold(c) && (IsSpace(fold(c)) <==> IsSpace(c)))
    && (forall c | 'a' <= c <= 'z' || c == ' ' :: fold(c) == c)
    && (forall c | 'A' <= c <= 'Z' :: fold(c) == c + 32 as char)
  }

  function AsciiLower(c: char): char { if 'A' <= c <= 'Z' then c + 32 as char else c }

  /** There is such a map. */
  lemma {:induction false} AsciiIsLowering()
    ensures IsLowering(AsciiLower)
  {
    assert forall c :: AsciiLower(c) == if 'A' <= c <= 'Z' then c + 32 as char else c;
  }

  function Lower(fold: char -> char, s: string): (r: string)
    ensures |r| == |s| && forall i | 0 <= i < |r| :: r[i] == fold(s[i])
  {
    seq(|s|, i requires 0 <= i < |s| => fold(s[i]))
  }

  function OrEmpty(c: Cell<string>): string { if c.Null? then "" else c.v }

  function Texts(r: Sectors): (texts: seq<string>)
    ensures |texts| == 4
  {
    [OrEmpty(r.sector), OrEmpty(r.industry), OrEmpty(r.gicsSector), OrEmpty(r.gicsIndustryGroup)]
  }

  predicate MentionsTerm(text: string) {
    exists k | 0 <= k < |FINANCIAL_TERMS| :: Contains(text, FINANCIAL_TERMS[k])
  }

  /** The column expression: some term occurs in some lower-cased text. */
  predicate Mentions(fold: char -> char, r: Sectors) {
    exists i | 0 <= i < 4 :: MentionsTerm(Lower(fold, Texts(r)[i]))
  }

  function Normalized(fold: char -> char, text: string): string { Lower(fold, Strip(text)) }

  /** Reading the policy drops blank entries. */
  function LoadPolicy(fold: char -> char, rawTerms: seq<string>, rawCodes: seq<string>): Policy {
    Policy(set t | t in rawTerms && Strip(t) != "" :: Normalized(fold, t),
           set c | c in rawCodes && Strip(c) != "" :: Strip(c))
  }

  predicate TextMatches(fold: char -> char, policy: Policy, r: Sectors) {
    exists i | 0 <= i < 4 :: Normalized(fold, Texts(r)[i]) in policy.terms
  }

  predicate CodeMatches(policy: Policy, r: Sectors) {
    var code := Strip(OrEmpty(r.gicsCode));
    || Strip(OrEmpty(r.gicsSectorCode)) in policy.codes
    || (if |code| < 2 then code else code[..2]) in policy.codes
  }

  /** The row form: a whole text or a code is in the policy. */
  predicate IsFinancialSector(fold: char -> char, policy: Policy, r: Sectors) {
    TextMatches(fold, policy, r) || CodeMatches(policy, r)
  }

  // ------------------------------------------------------------------ text facts

  lemma {:induction false} ContainsInside(front: string, text: string, back: string, word: string)
    requires Contains(text, word)
    ensures Contains(front + text + back, word)
  {
    var i :| 0 <= i <= |text| && word <= text[i..];
    var all := front + text + back;
    assert all[|front| + i..] == text[i..] + back;
  }

  lemma {:induction false} LowerConcat(fold: char -> char, a: string, b: string, c: string)
    ensures Lower(fold, a + b + c) == Lower(fold, a) + Lower(fold, b) + Lower(fold, c)
  {}

  /** Spaces around a text hide no term. */
  lemma {:induction false} NormalizedMentions(fold: char -> char, text: string)
    requires MentionsTerm(Normalized(fold, text))
    ensures MentionsTerm(Lower(fold, text))
  {
    var front, back := StripIsInside(text);
    LowerConcat(fold, front, Strip(text), back);
    var k :| 0 <= k < |FINANCIAL_TERMS| && Contains(Normalized(fold, text), FINANCIAL_TERMS[k]);
    ContainsInside(Lower(fold, front), Normalized(fold, text), Lower(fold, back), FINANCIAL_TERMS[k]);
  }

  lemma {:induction false} NormalizedTwice(fold: char -> char, text: string)
    requires IsLowering(fold)
    ensures var t := Normalized(fold, text); Normalized(fold, t) == t && Lower(fold, t) == t
  {
    var s, t := Strip(text), Normalized(fold, text);
    StripTrims(text);
    assert Trimmed(t);
    assert Strip(t) == t;
    forall i | 0 <= i < |t| ensures Lower(fold, t)[i] == t[i] {
      assert t[i] == fold(s[i]);
    }
  }

  lemma {:induction false} EmptyMentionsNothing(fold: char -> char)
    ensures !MentionsTerm(Lower(fold, ""))
  {}

  // ------------------------------------------------------------------ what each test accepts

  /** `t` without the spaces around it is `core`. */
  ghost predicate IsCore(t: string, core: string) {
    Trimmed(core) && exists a, b :: t == a + core + b && AllSpaces(a) && AllSpaces(b)
  }

  ghost predicate InTexts(r: Sectors, text: string) {
    r.sector == Val(text) || r.industry == Val(text) || r.gicsSector == Val(text) || r.gicsIndustryGroup == Val(text)
  }

  lemma {:induction false} StripsToCore(t: string, core: string)
    ensures IsCore(t, core) <==> Strip(t) == core
  {
    StripTrims(t);
    var front, back := StripIsInside(t);
    if IsCore(t, core) {
      var a, b :| t == a + core + b && AllSpaces(a) && AllSpaces(b);
      StripUnwraps(a, core, b);
    }
  }

  lemma {:induction false} StripUnwraps(a: string, core: string, b: string)
    requires Trimmed(core) && AllSpaces(a) && AllSpaces(b)
    ensures Strip(a + core + b) == core
    decreases |a| + |b|
  {
    var s := a + core + b;
    if a != "" {
      assert s[1..] == a[1..] + core + b;
      StripUnwraps(a[1..], core, b);
    } else if b != "" {
      assert s[..|s| - 1] == a + core + b[..|b| - 1];
      if core == "" {
        assert s == b && s[1..] == a + core + b[1..];
        StripUnwraps(a, core, b[1..]);
      } else {
        assert s[0] == core[0] && s[|s| - 1] == b[|b| - 1];
        StripUnwraps(a, core, b[..|b| - 1]);
      }
    } else {
      assert s == core;
    }
  }

  /** The lower-cased text of a column has the term somewhere in it. */
  ghost predicate TextHasTerm(fold: char -> char, r: Sectors, text: string, term: string) {
    InTexts(r, text) && exists a, b :: Lower(fold, text) == a + (term + b)
  }

  /** The column expression accepts a row exactly when one of its four texts, lower-cased, has one of the nine
      terms somewhere in it. */
  lemma {:induction false} MentionsMeaning(fold: char -> char, r: Sectors)
    ensures Mentions(fold, r)
       <==> exists text, term :: TextHasTerm(fold, r, text, term)
              && term in {"bank", "banks", "banking", "insurance", "insurers", "securities", "brokerage",
                          "diversified financials", "financial services"}
  {
    if Mentions(fold, r) {
      var i :| 0 <= i < 4 && MentionsTerm(Lower(fold, Texts(r)[i]));
      var k :| 0 <= k < |FINANCIAL_TERMS| && Contains(Lower(fold, Texts(r)[i]), FINANCIAL_TERMS[k]);
      ContainsIff(Lower(fold, Texts(r)[i]), FINANCIAL_TERMS[k]);
      if Texts(r)[i] == "" { EmptyMentionsNothing(fold); }
      assert TextHasTerm(fold, r, Texts(r)[i], FINANCIAL_TERMS[k]);
    }
    forall text, term | TextHasTerm(fold, r, text, term)
                        && term in {"bank", "banks", "banking", "insurance", "insurers", "securities", "brokerage",
                                    "diversified financials", "financial services"}
      ensures Mentions(fold, r)
    {
      ContainsIff(Lower(fold, text), term);
      var k := TermIndex(term);
      var i := TextIndex(r, text);
      assert MentionsTerm(Lower(fold, text));
    }
  }

  lemma {:induction false} TermIndex(term: string) returns (k: nat)
    requires term in {"bank", "banks", "banking", "insurance", "insurers", "securities", "brokerage",
                      "diversified financials", "financial services"}
    ensures k < |FINANCIAL_TERMS| && FINANCIAL_TERMS[k] == term
  {
    k := if term == "bank" then 0 else if term == "banks" then 1 else if term == "banking" then 2
         else if term == "insurance" then 3 else if term == "insurers" then 4 else if term == "securities" then 5
         else if term == "brokerage" then 6 else if term == "diversified financials" then 7 else 8;
  }

  lemma {:induction false} TextIndex(r: Sectors, text: string) returns (i: nat)
    requires InTexts(r, text)
    ensures i < 4 && Texts(r)[i] == text
  {
    i := if r.sector == Val(text) then 0 else if r.industry == Val(text) then 1
         else if r.gicsSector == Val(text) then 2 else 3;
  }

  /** A text of the row and an entry of the file that are the same without the spaces around them, lower-cased. */
  ghost predicate TextEntry(fold: char -> char, r: Sectors, text: string, entry: string) {
    InTexts(r, text) && exists core, other ::
      IsCore(text, core) && IsCore(entry, other) && other != "" && Lower(fold, core) == Lower(fold, other)
  }

  /** The row form accepts a text exactly when, without the spaces around it and lower-cased, it is an entry of
      the file treated in the same way. */
  lemma {:induction false} TextMatchesMeaning(
      fold: char -> char, rawTerms: seq<string>, rawCodes: seq<string>, r: Sectors)
    ensures TextMatches(fold, LoadPolicy(fold, rawTerms, rawCodes), r)
       <==> exists text, entry :: entry in rawTerms && TextEntry(fold, r, text, entry)
  {
    if TextMatches(fold, LoadPolicy(fold, rawTerms, rawCodes), r) {
      var text, entry := MatchedText(fold, rawTerms, rawCodes, r);
    }
    forall text, entry | entry in rawTerms && TextEntry(fold, r, text, entry)
      ensures TextMatches(fold, LoadPolicy(fold, rawTerms, rawCodes), r)
    {
      EntryMatches(fold, rawTerms, rawCodes, r, text, entry);
    }
  }

  lemma {:induction false} MatchedText(fold: char -> char, rawTerms: seq<string>, rawCodes: seq<string>, r: Sectors)
    returns (text: string, entry: string)
    requires TextMatches(fold, LoadPolicy(fold, rawTerms, rawCodes), r)
    ensures entry in rawTerms && TextEntry(fold, r, text, entry)
  {
    var policy := LoadPolicy(fold, rawTerms, rawCodes);
    var i :| 0 <= i < 4 && Normalized(fold, Texts(r)[i]) in policy.terms;
    text := Texts(r)[i];
    entry :| entry in rawTerms && Strip(entry) != "" && Normalized(fold, entry) == Normalized(fold, text);
    assert text != "" by { assert |Strip(entry)| == |Strip(text)|; }
    StripsToCore(text, Strip(text));
    StripsToCore(entry, Strip(entry));
  }

  lemma {:induction false} EntryMatches(
      fold: char -> char, rawTerms: seq<string>, rawCodes: seq<string>, r: Sectors, text: string, entry: string)
    requires entry in rawTerms && TextEntry(fold, r, text, entry)
    ensures TextMatches(fold, LoadPolicy(fold, rawTerms, rawCodes), r)
  {
    var core, other :|
      IsCore(text, core) && IsCore(entry, other) && other != "" && Lower(fold, core) == Lower(fold, other);
    StripsToCore(text, core);
    StripsToCore(entry, other);
    var i := TextIndex(r, text);
    assert Normalized(fold, entry) in LoadPolicy(fold, rawTerms, rawCodes).terms;
  }

  /** The row's sector code is `code`, or its GICS code starts with it: with two characters, or with all it has. */
  ghost predicate HasCode(r: Sectors, code: string) {
    || (r.gicsSectorCode.Val? && IsCore(r.gicsSectorCode.v, code))
    || (r.gicsCode.Val? && exists core ::
          IsCore(r.gicsCode.v, core) && code <= core && (|code| == 2 || (|code| < 2 && code == core)))
  }

  /** The row form accepts a code exactly when the sector code, or the first two characters of the GICS code, are
      an entry of the file, spaces around either not counting. */
  lemma {:induction false} CodeMatchesMeaning(
      fold: char -> char, rawTerms: seq<string>, rawCodes: seq<string>, r: Sectors)
    ensures CodeMatches(LoadPolicy(fold, rawTerms, rawCodes), r)
       <==> exists entry, code :: entry in rawCodes && IsCore(entry, code) && code != "" && HasCode(r, code)
  {
    if CodeMatches(LoadPolicy(fold, rawTerms, rawCodes), r) {
      var entry, code := MatchedCode(fold, rawTerms, rawCodes, r);
    }
    forall entry, code | entry in rawCodes && IsCore(entry, code) && code != "" && HasCode(r, code)
      ensures CodeMatches(LoadPolicy(fold, rawTerms, rawCodes), r)
    {
      CodeEntryMatches(fold, rawTerms, rawCodes, r, entry, code);
    }
  }

  lemma {:induction false} CodeEntryMatches(
      fold: char -> char, rawTerms: seq<string>, rawCodes: seq<string>, r: Sectors, entry: string, code: string)
    requires entry in rawCodes && IsCore(entry, code) && code != "" && HasCode(r, code)
    ensures CodeMatches(LoadPolicy(fold, rawTerms, rawCodes), r)
  {
    StripsToCore(entry, code);
    assert code in LoadPolicy(fold, rawTerms, rawCodes).codes;
    if r.gicsSectorCode.Val? && IsCore(r.gicsSectorCode.v, code) {
      StripsToCore(r.gicsSectorCode.v, code);
    } else {
      var core :| IsCore(r.gicsCode.v, core) && code <= core && (|code| == 2 || (|code| < 2 && code == core));
      StripsToCore(r.gicsCode.v, core);
      assert core[..|code|] == code;
    }
  }

  lemma {:induction false} MatchedCode(fold: char -> char, rawTerms: seq<string>, rawCodes: seq<string>, r: Sectors)
    returns (entry: string, code: string)
    requires CodeMatches(LoadPolicy(fold, rawTerms, rawCodes), r)
    ensures entry in rawCodes && IsCore(entry, code) && code != "" && HasCode(r, code)
  {
    var policy := LoadPolicy(fold, rawTerms, rawCodes);
    var whole, core := Strip(OrEmpty(r.gicsSectorCode)), Strip(OrEmpty(r.gicsCode));
    code := if whole in policy.codes then whole else if |core| < 2 then core else core[..2];
    entry :| entry in rawCodes && Strip(entry) != "" && Strip(entry) == code;
    StripsToCore(entry, code);
    if whole in policy.codes {
      StripsToCore(r.gicsSectorCode.v, code);
    } else {
      StripsToCore(r.gicsCode.v, core);
    }
  }

  // ------------------------------------------------------------------ when the tests agree

  /** Every policy term has a term of the column expression in it. */
  predicate Covered(policy: Policy) { forall t | t in policy.terms :: MentionsTerm(t) }

  /** A row that carries nothing but a sector text. */
  function OnlySector(text: string): Sectors { Sectors(Val(text), Null, Null, Null, Null, Null) }

  lemma {:induction false} OnlySectorMentions(fold: char -> char, text: string)
    ensures Mentions(fold, OnlySector(text)) <==> MentionsTerm(Lower(fold, text))
  {
    EmptyMentionsNothing(fold);
    assert Texts(OnlySector(text))[0] == text;
  }

  /** Exactly the covered policies never call a text financial that the column expression does not. */
  lemma {:induction false} CoveredIff(fold: char -> char, rawTerms: seq<string>, rawCodes: seq<string>)
    requires IsLowering(fold)
    ensures var policy := LoadPolicy(fold, rawTerms, rawCodes);
      Covered(policy) <==> forall r | TextMatches(fold, policy, r) :: Mentions(fold, r)
  {
    var policy := LoadPolicy(fold, rawTerms, rawCodes);
    if Covered(policy) {
      forall r | TextMatches(fold, policy, r) ensures Mentions(fold, r) {
        CoveredTextMentions(fold, policy, r);
      }
    }
    if forall r | TextMatches(fold, policy, r) :: Mentions(fold, r) {
      forall t | t in policy.terms ensures MentionsTerm(t) {
        var raw :| raw in rawTerms && t == Normalized(fold, raw);
        NormalizedTwice(fold, raw);
        assert Texts(OnlySector(t))[0] == t;
        assert TextMatches(fold, policy, OnlySector(t));
        OnlySectorMentions(fold, t);
      }
    }
  }

  lemma {:induction false} CoveredTextMentions(fold: char -> char, policy: Policy, r: Sectors)
    requires Covered(policy) && TextMatches(fold, policy, r)
    ensures Mentions(fold, r)
  {
    var i :| 0 <= i < 4 && Normalized(fold, Texts(r)[i]) in policy.terms;
    NormalizedMentions(fold, Texts(r)[i]);
  }

  /** Under a covered policy the tests agree on a row exactly when a whole text matches, or a term is
      mentioned just when a code matches. */
  lemma {:induction false} SectorTestsAgreeIff(fold: char -> char, policy: Policy, r: Sectors)
    requires Covered(policy)
    ensures (Mentions(fold, r) <==> IsFinancialSector(fold, policy, r))
       <==> TextMatches(fold, policy, r) || (Mentions(fold, r) <==> CodeMatches(policy, r))
  {
    if TextMatches(fold, policy, r) { CoveredTextMentions(fold, policy, r); }
  }

  // ------------------------------------------------------------------ no policy agrees on all rows

  lemma {:induction false} LongerThanAll(terms: set<string>) returns (n: nat)
    ensures forall t | t in terms :: |t| < n
  {
    n := 0;
    if terms != {} {
      var t :| t in terms;
      n := LongerThanAll(terms - {t});
      n := n + |t| + 1;
    }
  }

  function ManyBanks(n: nat): string { "bank" + seq(n, i => 's') }

  lemma {:induction false} ManyBanksMention(fold: char -> char, n: nat)
    requires IsLowering(fold)
    ensures var t := ManyBanks(n); Normalized(fold, t) == t && Lower(fold, t) == t && MentionsTerm(t)
  {
    var t := ManyBanks(n);
    assert forall i | 0 <= i < |t| :: 'a' <= t[i] <= 'z';
    assert Lower(fold, t) == t;
    assert Strip(t) == t;
    assert FINANCIAL_TERMS[0] <= t[0..];
    assert Contains(t, FINANCIAL_TERMS[0]);
  }

  lemma {:induction false} BlankMatchesNothing(fold: char -> char, rawTerms: seq<string>, rawCodes: seq<string>)
    requires IsLowering(fold)
    ensures var policy := LoadPolicy(fold, rawTerms, rawCodes); "" !in policy.codes && "" !in policy.terms
  {}

  lemma {:induction false} OnlySectorMatches(fold: char -> char, policy: Policy, text: string)
    requires "" !in policy.terms && "" !in policy.codes
    ensures IsFinancialSector(fold, policy, OnlySector(text)) <==> Normalized(fold, text) in policy.terms
  {
    assert Texts(OnlySector(text))[0] == text;
    assert Normalized(fold, "") == "";
  }

  /** Membership in a finite list cannot follow a substring test: for every policy there is a row that
      mentions a bank and is not in the policy. */
  lemma {:induction false} NoPolicyAgrees(fold: char -> char, rawTerms: seq<string>, rawCodes: seq<string>)
    returns (r: Sectors)
    requires IsLowering(fold)
    ensures Mentions(fold, r) && !IsFinancialSector(fold, LoadPolicy(fold, rawTerms, rawCodes), r)
  {
    var policy := LoadPolicy(fold, rawTerms, rawCodes);
    var n := LongerThanAll(policy.terms);
    r := OnlySector(ManyBanks(n));
    ManyBanksMention(fold, n);
    OnlySectorMentions(fold, ManyBanks(n));
    BlankMatchesNothing(fold, rawTerms, rawCodes);
    OnlySectorMatches(fold, policy, ManyBanks(n));
    assert ManyBanks(n) !in policy.terms;
  }

  // ------------------------------------------------------------------ the policy that ships

  lemma {:induction false} ShippedTermMentions(fold: char -> char, t: string)
    requires IsLowering(fold) && t in SHIPPED_TERMS
    ensures MentionsTerm(Normalized(fold, t))
  {
    if |t| < 18 { OneWordMentions(fold, t); }
    else if t == "Financial Services" { LowerIs(fold, "Financial Services", 8); }
    else { LowerIs(fold, "Diversified Financials", 7); }
  }

  lemma {:induction false} OneWordMentions(fold: char -> char, t: string)
    requires IsLowering(fold) && t in ["Banks", "Insurance", "Securities"]
    ensures MentionsTerm(Normalized(fold, t))
  {
    if t == "Banks" { LowerIs(fold, "Banks", 1); }
    else if t == "Insurance" { LowerIs(fold, "Insurance", 3); }
    else { LowerIs(fold, "Securities", 5); }
  }

  /** Each term of the shipped policy is one of the column expression's terms, capitals aside. */
  lemma {:induction false} ShippedPolicyIsCovered(fold: char -> char)
    requires IsLowering(fold)
    ensures Covered(LoadPolicy(fold, SHIPPED_TERMS, SHIPPED_CODES))
  {
    forall t | t in SHIPPED_TERMS ensures MentionsTerm(Normalized(fold, t)) { ShippedTermMentions(fold, t); }
  }

  /** Of the shipped codes the two-character cut of a GICS code can only be "40"; the longer ones count as sector
      codes alone. */
  lemma {:induction false} ShippedCodesMeaning(fold: char -> char, r: Sectors)
    ensures CodeMatches(LoadPolicy(fold, SHIPPED_TERMS, SHIPPED_CODES), r)
       <==> || (r.gicsSectorCode != Null && Strip(r.gicsSectorCode.v) in {"40", "4010", "4020", "4030"})
            || (r.gicsCode != Null && "40" <= Strip(r.gicsCode.v))
  {
    var codes := LoadPolicy(fold, SHIPPED_TERMS, SHIPPED_CODES).codes;
    assert Strip("40") == "40" && Strip("4010") == "4010" && Strip("4020") == "4020" && Strip("4030") == "4030";
    forall c ensures c in codes <==> c in {"40", "4010", "4020", "4030"} {
      if c in {"40", "4010", "4020", "4030"} { assert c in SHIPPED_CODES && Strip(c) == c; }
    }
    assert Strip("") == "";
    if r.gicsCode.Val? { FirstTwo(Strip(r.gicsCode.v)); }
  }

  lemma {:induction false} FirstTwo(code: string)
    ensures (if |code| < 2 then code else code[..2]) in {"40", "4010", "4020", "4030"} <==> "40" <= code
  {
    var cut := if |code| < 2 then code else code[..2];
    assert |cut| <= 2 && cut <= code;
    assert |"4010"| == |"4020"| == |"4030"| == 4 && |"40"| == 2;
    assert cut != "4010" && cut != "4020" && cut != "4030";
    if "40" <= code { assert code[..2] == "40"; }
  }

  predicate LowerCaseOf(small: char, c: char) {
    (('a' <= c <= 'z' || c == ' ') && small == c) || ('A' <= c <= 'Z' && small == c + 32 as char)
  }

  lemma {:induction false} LowerIs(fold: char -> char, text: string, k: nat)
    requires IsLowering(fold) && Trimmed(text) && k < |FINANCIAL_TERMS| && |text| == |FINANCIAL_TERMS[k]|
    requires forall i | 0 <= i < |text| :: LowerCaseOf(FINANCIAL_TERMS[k][i], text[i])
    ensures Normalized(fold, text) == FINANCIAL_TERMS[k] && MentionsTerm(Normalized(fold, text))
  {
    assert Strip(text) == text;
    assert FINANCIAL_TERMS[k] <= FINANCIAL_TERMS[k][0..];
    assert Contains(FINANCIAL_TERMS[k], FINANCIAL_TERMS[k]);
  }

  // ------------------------------------------------------------------ the labels

  /** With sector tests and denominators together: on which companies both forms of the rule give every
      statement the same label. */
  lemma {:induction false} LabelsAgreeBySectorIff(
      fold: char -> char, policy: Policy, r: Sectors, assets: Cell<real>, currentLiabilities: Cell<real>,
      interest: Cell<real>)
    requires Covered(policy)
    ensures (TextMatches(fold, policy, r) || (Mentions(fold, r) <==> CodeMatches(policy, r)))
            && (Mentions(fold, r) || DenominatorsAgree(assets, currentLiabilities, interest))
       <==> forall f | SameDenominators(f, assets, currentLiabilities, interest) ::
              Label(InSector(f, Mentions(fold, r))) == RowLabel(InSector(f, IsFinancialSector(fold, policy, r)))
  {
    SectorTestsAgreeIff(fold, policy, r);
    LabelsAgreeIff(Mentions(fold, r), IsFinancialSector(fold, policy, r), assets, currentLiabilities, interest);
  }
}
