/** PII span selection and redaction. What each pattern matched is an input: an arbitrary list of spans. */
module PiiRedaction {
  import opened StableSort
  import opened TextOrder

  datatype Span = Span(start: nat, end: nat)
  datatype Finding = Finding(kind: string, span: Span)

  /** The match lists of the four patterns, in the order each pattern found them. */
  datatype Matches = Matches(emails: seq<Span>, phones: seq<Span>, nationalIds: seq<Span>, bankAccounts: seq<Span>)

  const ID_KEYWORDS := ["cccd", "cmnd", "can cuoc", "chung minh"]
  const BANK_KEYWORDS := ["stk", "so tai khoan", "tai khoan"]
  const KEYWORD_WINDOW := 25

  // ------------------------------------------------------------------ detection

  predicate Overlap(a: Span, b: Span) { a.start < b.end && b.start < a.end }

  predicate OverlapsAny(findings: seq<Finding>, s: Span) {
    exists i | 0 <= i < |findings| :: Overlap(s, findings[i].span)
  }

  predicate KeywordNearby(lower: string -> string, text: string, start: nat, keywords: seq<string>)
    requires start <= |text|
  {
    var from := if start < KEYWORD_WINDOW then 0 else start - KEYWORD_WINDOW;
    exists k | 0 <= k < |keywords| :: Contains(lower(text[from..start]), keywords[k])
  }

  predicate InText(text: string, s: Span) { s.start < s.end <= |text| }

  predicate AllInText(text: string, spans: seq<Span>) { forall i | 0 <= i < |spans| :: InText(text, spans[i]) }

  predicate MatchesIn(text: string, m: Matches) {
    && AllInText(text, m.emails) && AllInText(text, m.phones)
    && AllInText(text, m.nationalIds) && AllInText(text, m.bankAccounts)
  }

  function Tagged(kind: string, spans: seq<Span>): (r: seq<Finding>)
    ensures |r| == |spans| && forall i | 0 <= i < |r| :: r[i] == Finding(kind, spans[i])
  {
    if spans == [] then [] else Tagged(kind, spans[..|spans| - 1]) + [Finding(kind, spans[|spans| - 1])]
  }

  /** The matches of a bare digit pattern that have one of the keywords in front of them. */
  function Gated(lower: string -> string, text: string, spans: seq<Span>, keywords: seq<string>): (r: seq<Span>)
    requires AllInText(text, spans)
    ensures AllInText(text, r)
  {
    if spans == [] then []
    else
      var last := spans[|spans| - 1];
      Gated(lower, text, spans[..|spans| - 1], keywords)
      + (if KeywordNearby(lower, text, last.start, keywords) then [last] else [])
  }

  /** Everything that may be reported, the more specific patterns first. */
  function Candidates(lower: string -> string, text: string, m: Matches): seq<Finding>
    requires MatchesIn(text, m)
  {
    Tagged("email", m.emails) + Tagged("phone", m.phones)
    + Tagged("vn_national_id", Gated(lower, text, m.nationalIds, ID_KEYWORDS))
    + Tagged("bank_account", Gated(lower, text, m.bankAccounts, BANK_KEYWORDS))
  }

  /** Candidates in order, each dropped if it overlaps one kept before. */
  function Kept(candidates: seq<Finding>): seq<Finding> {
    if candidates == [] then []
    else
      var before := Kept(candidates[..|candidates| - 1]);
      var last := candidates[|candidates| - 1];
      if OverlapsAny(before, last.span) then before else before + [last]
  }

  method AddFinding(findings: seq<Finding>, f: Finding) returns (r: seq<Finding>)
    ensures r == if OverlapsAny(findings, f.span) then findings else findings + [f]
  {
    for i := 0 to |findings|
      invariant !OverlapsAny(findings[..i], f.span)
    {
      if Overlap(f.span, findings[i].span) { return findings; }
    }
    assert findings[..|findings|] == findings;
    return findings + [f];
  }

  lemma {:induction false} KeptStep(candidates: seq<Finding>, f: Finding)
    ensures Kept(candidates + [f])
         == if OverlapsAny(Kept(candidates), f.span) then Kept(candidates) else Kept(candidates) + [f]
  {
    assert (candidates + [f])[..|candidates|] == candidates;
  }

  lemma {:induction false} TaggedStep(seen: seq<Finding>, kind: string, spans: seq<Span>, s: Span)
    ensures seen + Tagged(kind, spans + [s]) == (seen + Tagged(kind, spans)) + [Finding(kind, s)]
  {
    assert (spans + [s])[..|spans|] == spans;
  }

  /** The loop over a pattern that needs no keyword. */
  method AddMatches(kind: string, spans: seq<Span>, findings: seq<Finding>, ghost seen: seq<Finding>)
    returns (r: seq<Finding>)
    requires findings == Kept(seen)
    ensures r == Kept(seen + Tagged(kind, spans))
  {
    r := findings;
    assert seen + [] == seen;
    for i := 0 to |spans|
      invariant r == Kept(seen + Tagged(kind, spans[..i]))
    {
      r := AddFinding(r, Finding(kind, spans[i]));
      assert spans[..i + 1] == spans[..i] + [spans[i]];
      TaggedStep(seen, kind, spans[..i], spans[i]);
      KeptStep(seen + Tagged(kind, spans[..i]), Finding(kind, spans[i]));
    }
    assert spans[..|spans|] == spans;
  }

  lemma {:induction false} GatedStep(lower: string -> string, text: string, spans: seq<Span>, i: nat,
      keywords: seq<string>)
    requires AllInText(text, spans) && i < |spans|
    ensures Gated(lower, text, spans[..i + 1], keywords)
         == Gated(lower, text, spans[..i], keywords)
            + (if KeywordNearby(lower, text, spans[i].start, keywords) then [spans[i]] else [])
  {
    assert spans[..i + 1][..i] == spans[..i];
  }

  /** The loop over a bare digit pattern. */
  method AddGatedMatches(lower: string -> string, text: string, kind: string, spans: seq<Span>, keywords: seq<string>,
                         findings: seq<Finding>, ghost seen: seq<Finding>)
    returns (r: seq<Finding>)
    requires AllInText(text, spans) && findings == Kept(seen)
    ensures r == Kept(seen + Tagged(kind, Gated(lower, text, spans, keywords)))
  {
    r := findings;
    assert seen + [] == seen;
    for i := 0 to |spans|
      invariant r == Kept(seen + Tagged(kind, Gated(lower, text, spans[..i], keywords)))
    {
      GatedStep(lower, text, spans, i, keywords);
      ghost var so := Gated(lower, text, spans[..i], keywords);
      if KeywordNearby(lower, text, spans[i].start, keywords) {
        r := AddFinding(r, Finding(kind, spans[i]));
        TaggedStep(seen, kind, so, spans[i]);
        KeptStep(seen + Tagged(kind, so), Finding(kind, spans[i]));
      } else {
        assert so + [] == so;
      }
    }
    assert spans[..|spans|] == spans;
  }

  method DetectPii(lower: string -> string, text: string, m: Matches) returns (findings: seq<Finding>)
    requires MatchesIn(text, m)
    ensures findings == Kept(Candidates(lower, text, m))
  {
    ghost var seen: seq<Finding> := [];
    findings := AddMatches("email", m.emails, [], seen);
    assert seen + Tagged("email", m.emails) == Tagged("email", m.emails);
    seen := Tagged("email", m.emails);
    findings := AddMatches("phone", m.phones, findings, seen);
    seen := seen + Tagged("phone", m.phones);
    findings := AddGatedMatches(lower, text, "vn_national_id", m.nationalIds, ID_KEYWORDS, findings, seen);
    seen := seen + Tagged("vn_national_id", Gated(lower, text, m.nationalIds, ID_KEYWORDS));
    findings := AddGatedMatches(lower, text, "bank_account", m.bankAccounts, BANK_KEYWORDS, findings, seen);
  }

  // ------------------------------------------------------------------ what detection promises

  predicate Separate(findings: seq<Finding>) {
    forall i, j | 0 <= i < j < |findings| :: !Overlap(findings[i].span, findings[j].span)
  }

  predicate FindingsIn(text: string, findings: seq<Finding>) {
    forall i | 0 <= i < |findings| :: InText(text, findings[i].span)
  }

  lemma {:induction false} CandidatesInText(lower: string -> string, text: string, m: Matches)
    requires MatchesIn(text, m)
    ensures FindingsIn(text, Candidates(lower, text, m))
  {
  }

  lemma {:induction false} KeptIsSeparate(text: string, candidates: seq<Finding>)
    requires FindingsIn(text, candidates)
    ensures FindingsIn(text, Kept(candidates)) && Separate(Kept(candidates))
  {
    if candidates != [] { KeptIsSeparate(text, candidates[..|candidates| - 1]); }
  }

  lemma {:induction false} KeptGrows(candidates: seq<Finding>, i: nat)
    requires i <= |candidates|
    ensures Kept(candidates[..i]) <= Kept(candidates)
  {
    if i < |candidates| {
      KeptGrows(candidates[..|candidates| - 1], i);
      assert candidates[..|candidates| - 1][..i] == candidates[..i];
    } else {
      assert candidates[..i] == candidates;
    }
  }

  lemma {:induction false} KeptCovers(candidates: seq<Finding>, i: nat)
    requires i < |candidates|
    ensures Kept(candidates[..i]) <= Kept(candidates)
    ensures OverlapsAny(Kept(candidates[..i]), candidates[i].span) || candidates[i] in Kept(candidates)
  {
    KeptGrows(candidates, i);
    KeptGrows(candidates, i + 1);
    KeptStep(candidates[..i], candidates[i]);
    assert candidates[..i + 1] == candidates[..i] + [candidates[i]];
    var before, kept := Kept(candidates[..i]), Kept(candidates[..i + 1]);
    if kept == before + [candidates[i]] { LastOfPrefix(before, candidates[i], Kept(candidates)); }
  }

  lemma {:induction false} LastOfPrefix<T>(front: seq<T>, x: T, all: seq<T>)
    requires front + [x] <= all
    ensures x in all
  {
    assert all[|front|] == (front + [x])[|front|];
  }

  lemma {:induction false} KeptOnlyIf(text: string, candidates: seq<Finding>, i: nat)
    requires FindingsIn(text, candidates) && i < |candidates| && candidates[i] !in candidates[..i]
    requires candidates[i] in Kept(candidates)
    ensures !OverlapsAny(Kept(candidates[..i]), candidates[i].span)
  {
    var before, kept := Kept(candidates[..i]), Kept(candidates);
    KeptIsSeparate(text, candidates);
    KeptGrows(candidates, i);
    KeptComesFrom(candidates[..i]);
    assert candidates[i] !in before;
    var k :| 0 <= k < |kept| && kept[k] == candidates[i];
    forall j | 0 <= j < |before| ensures !Overlap(candidates[i].span, before[j].span) {
      assert before[j] == kept[j] && before[j] in before;
      assert !Overlap(kept[j].span, kept[k].span) || k <= j;
    }
  }

  /** Reported findings lie in the text and do not overlap. Each candidate is reported, or overlaps a
      finding reported for an earlier candidate, and never both unless it was listed before; an earlier
      report is never withdrawn. */
  lemma {:induction false} DetectionCovers(lower: string -> string, text: string, m: Matches, i: nat)
    requires MatchesIn(text, m) && i < |Candidates(lower, text, m)|
    ensures var candidates := Candidates(lower, text, m);
      && FindingsIn(text, Kept(candidates)) && Separate(Kept(candidates))
      && Kept(candidates[..i]) <= Kept(candidates)
      && (OverlapsAny(Kept(candidates[..i]), candidates[i].span) || candidates[i] in Kept(candidates))
      && (candidates[i] !in candidates[..i] ==>
            !(OverlapsAny(Kept(candidates[..i]), candidates[i].span) && candidates[i] in Kept(candidates)))
  {
    CandidatesInText(lower, text, m);
    var candidates := Candidates(lower, text, m);
    KeptIsSeparate(text, candidates);
    KeptCovers(candidates, i);
    if candidates[i] !in candidates[..i] && candidates[i] in Kept(candidates) { KeptOnlyIf(text, candidates, i); }
  }

  lemma {:induction false} KeptComesFrom(candidates: seq<Finding>)
    ensures forall f | f in Kept(candidates) :: f in candidates
  {
    if candidates != [] { KeptComesFrom(candidates[..|candidates| - 1]); }
  }

  /** The first pattern wins: matches of one pattern never overlap each other, so every e-mail is reported. */
  lemma {:induction false} EmailsAreReported(lower: string -> string, text: string, m: Matches)
    requires MatchesIn(text, m)
    requires forall i, j | 0 <= i < j < |m.emails| :: !Overlap(m.emails[j], m.emails[i])
    ensures Tagged("email", m.emails) <= Kept(Candidates(lower, text, m))
  {
    var candidates := Candidates(lower, text, m);
    assert candidates[..|m.emails|] == Tagged("email", m.emails);
    KeptGrows(candidates, |m.emails|);
    SeparateIsKept(Tagged("email", m.emails));
  }

  lemma {:induction false} LastStandsAlone(rest: seq<Finding>, last: Finding, candidates: seq<Finding>)
    requires candidates == rest + [last]
    requires forall i, j | 0 <= i < j < |candidates| :: !Overlap(candidates[j].span, candidates[i].span)
    ensures !OverlapsAny(rest, last.span)
  {
    forall i | 0 <= i < |rest| ensures !Overlap(last.span, rest[i].span) {
      assert candidates[i] == rest[i] && candidates[|rest|] == last;
    }
  }

  lemma {:induction false} SeparateIsKept(candidates: seq<Finding>)
    requires forall i, j | 0 <= i < j < |candidates| :: !Overlap(candidates[j].span, candidates[i].span)
    ensures Kept(candidates) == candidates
  {
    if candidates != [] {
      var rest, last := candidates[..|candidates| - 1], candidates[|candidates| - 1];
      SeparateIsKept(rest);
      LastStandsAlone(rest, last, candidates);
    }
  }

  lemma {:induction false} GatedIff(lower: string -> string, text: string, spans: seq<Span>, keywords: seq<string>,
      s: Span)
    requires AllInText(text, spans) && InText(text, s)
    ensures s in Gated(lower, text, spans, keywords) <==> s in spans && KeywordNearby(lower, text, s.start, keywords)
  {
    if spans != [] {
      GatedIff(lower, text, spans[..|spans| - 1], keywords, s);
      assert spans == spans[..|spans| - 1] + [spans[|spans| - 1]];
    }
  }

  predicate IsMatch(lower: string -> string, text: string, m: Matches, f: Finding) {
    InText(text, f.span) &&
    match f.kind
    case "email" => f.span in m.emails
    case "phone" => f.span in m.phones
    case "vn_national_id" => f.span in m.nationalIds && KeywordNearby(lower, text, f.span.start, ID_KEYWORDS)
    case _ => f.kind == "bank_account" && f.span in m.bankAccounts
              && KeywordNearby(lower, text, f.span.start, BANK_KEYWORDS)
  }

  lemma {:induction false} TaggedIs(kind: string, spans: seq<Span>, f: Finding)
    ensures f in Tagged(kind, spans) <==> f.kind == kind && f.span in spans
  {
    if f.kind == kind && f.span in spans {
      var i :| 0 <= i < |spans| && spans[i] == f.span;
      assert Tagged(kind, spans)[i] == f;
    }
  }

  /** Every report is a match of the pattern it is named after, and a bare digit run is reported only
      with one of its keywords just in front of it. */
  lemma {:induction false} ReportsAreMatches(lower: string -> string, text: string, m: Matches, f: Finding)
    requires MatchesIn(text, m) && f in Kept(Candidates(lower, text, m))
    ensures IsMatch(lower, text, m, f)
  {
    KeptComesFrom(Candidates(lower, text, m));
    CandidatesInText(lower, text, m);
    assert InText(text, f.span);
    TaggedIs("email", m.emails, f);
    TaggedIs("phone", m.phones, f);
    TaggedIs("vn_national_id", Gated(lower, text, m.nationalIds, ID_KEYWORDS), f);
    TaggedIs("bank_account", Gated(lower, text, m.bankAccounts, BANK_KEYWORDS), f);
    GatedIff(lower, text, m.nationalIds, ID_KEYWORDS, f.span);
    GatedIff(lower, text, m.bankAccounts, BANK_KEYWORDS, f.span);
  }

  // ------------------------------------------------------------------ what becomes of each match

  /** One of the words stands, after lower-casing, in the 25 characters in front of `start`. */
  ghost predicate WordInFront(lower: string -> string, text: string, start: nat, words: set<string>)
    requires start <= |text|
  {
    exists w, a, b :: w in words && lower(text[if start < 25 then 0 else start - 25..start]) == a + (w + b)
  }

  lemma {:induction false} KeywordIsInFront(lower: string -> string, text: string, start: nat)
    requires start <= |text|
    ensures KeywordNearby(lower, text, start, ID_KEYWORDS)
            <==> WordInFront(lower, text, start, {"cccd", "cmnd", "can cuoc", "chung minh"})
    ensures KeywordNearby(lower, text, start, BANK_KEYWORDS)
            <==> WordInFront(lower, text, start, {"stk", "so tai khoan", "tai khoan"})
  {
    KeywordsAsSet(lower, text, start, ID_KEYWORDS, {"cccd", "cmnd", "can cuoc", "chung minh"});
    KeywordsAsSet(lower, text, start, BANK_KEYWORDS, {"stk", "so tai khoan", "tai khoan"});
  }

  lemma {:induction false} KeywordsAsSet(
      lower: string -> string, text: string, start: nat, keywords: seq<string>, words: set<string>)
    requires start <= |text| && forall w :: w in keywords <==> w in words
    ensures KeywordNearby(lower, text, start, keywords) <==> WordInFront(lower, text, start, words)
  {
    var front := lower(text[if start < 25 then 0 else start - 25..start]);
    forall w ensures Contains(front, w) <==> exists a, b :: front == a + (w + b) { ContainsIff(front, w); }
    if KeywordNearby(lower, text, start, keywords) {
      var k :| 0 <= k < |keywords| && Contains(front, keywords[k]);
      assert keywords[k] in words;
    }
    if WordInFront(lower, text, start, words) {
      var w, a, b :| w in words && front == a + (w + b);
      var k :| 0 <= k < |keywords| && keywords[k] == w;
      assert Contains(front, w);
    }
  }

  /** Match `i` of a pattern is reported under its kind, or shares a character with a report of an earlier
      pattern or of an earlier match of its own. */
  ghost predicate Accounted(findings: seq<Finding>, kind: string, spans: seq<Span>, i: nat, earlier: set<string>)
    requires i < |spans|
  {
    || Finding(kind, spans[i]) in findings
    || exists f :: f in findings && f.span.start < spans[i].end && spans[i].start < f.span.end
                   && (f.kind in earlier || (f.kind == kind && exists j :: 0 <= j < i && spans[j] == f.span))
  }

  /** `own` are the reports the pattern may make for the matches before `i`. */
  lemma {:induction false} AccountedAt(
      before: seq<Finding>, own: seq<Finding>, candidates: seq<Finding>, kind: string, spans: seq<Span>, i: nat,
      earlier: set<string>)
    requires i < |spans| && before + own + [Finding(kind, spans[i])] <= candidates
    requires forall f | f in before :: f.kind in earlier
    requires forall f | f in own :: f.kind == kind && f.span in spans[..i]
    ensures Accounted(Kept(candidates), kind, spans, i, earlier)
  {
    var n := |before + own|;
    assert candidates[..n] == before + own;
    assert candidates[n] == (before + own + [Finding(kind, spans[i])])[n];
    KeptCovers(candidates, n);
    if OverlapsAny(Kept(candidates[..n]), spans[i]) {
      var k :| 0 <= k < |Kept(candidates[..n])| && Overlap(spans[i], Kept(candidates[..n])[k].span);
      var f := Kept(candidates[..n])[k];
      KeptComesFrom(candidates[..n]);
      assert f in Kept(candidates[..n]);
      assert f in before + own;
      assert f == Kept(candidates)[k];
    }
  }

  lemma {:induction false} TaggedPrefix(kind: string, spans: seq<Span>, i: nat)
    requires i < |spans|
    ensures Tagged(kind, spans[..i]) + [Finding(kind, spans[i])] <= Tagged(kind, spans)
  {
  }

  lemma {:induction false} GatedPrefix(
      lower: string -> string, text: string, spans: seq<Span>, i: nat, keywords: seq<string>)
    requires AllInText(text, spans) && i <= |spans|
    ensures Gated(lower, text, spans[..i], keywords) <= Gated(lower, text, spans, keywords)
  {
    if i < |spans| {
      var rest := spans[..|spans| - 1];
      GatedPrefix(lower, text, rest, i, keywords);
      assert rest[..i] == spans[..i];
    } else {
      assert spans[..i] == spans;
    }
  }

  /** The matches of a bare digit pattern up to and including `i`, which has its keyword. */
  lemma {:induction false} GatedUpTo(
      lower: string -> string, text: string, kind: string, spans: seq<Span>, i: nat, keywords: seq<string>)
    returns (own: seq<Finding>)
    requires AllInText(text, spans) && i < |spans| && KeywordNearby(lower, text, spans[i].start, keywords)
    ensures own + [Finding(kind, spans[i])] <= Tagged(kind, Gated(lower, text, spans, keywords))
    ensures forall f | f in own :: f.kind == kind && f.span in spans[..i]
  {
    GatedPrefix(lower, text, spans, i + 1, keywords);
    GatedStep(lower, text, spans, i, keywords);
    var so, all := Gated(lower, text, spans[..i], keywords), Gated(lower, text, spans, keywords);
    own := Tagged(kind, so);
    assert so + [spans[i]] <= all;
    assert all[|so|] == spans[i] && all[..|so|] == so;
    TaggedPrefix(kind, all, |so|);
    forall f | f in own ensures f.kind == kind && f.span in spans[..i] {
      var k :| 0 <= k < |so| && own[k] == f;
      assert InText(text, so[k]);
      GatedIff(lower, text, spans[..i], keywords, so[k]);
    }
  }

  lemma {:induction false} PlainAccounted(
      before: seq<Finding>, kind: string, spans: seq<Span>, after: seq<Finding>, i: nat, earlier: set<string>)
    requires i < |spans| && forall f | f in before :: f.kind in earlier
    ensures Accounted(Kept(before + Tagged(kind, spans) + after), kind, spans, i, earlier)
  {
    TaggedPrefix(kind, spans, i);
    var own, candidates := Tagged(kind, spans[..i]), before + Tagged(kind, spans) + after;
    forall f | f in own ensures f.kind == kind && f.span in spans[..i] { TaggedIs(kind, spans[..i], f); }
    OwnIsPrefix(before, own, Finding(kind, spans[i]), Tagged(kind, spans), after);
    AccountedAt(before, own, candidates, kind, spans, i, earlier);
  }

  lemma {:induction false} GatedAccounted(
      lower: string -> string, text: string, before: seq<Finding>, kind: string, spans: seq<Span>,
      keywords: seq<string>, after: seq<Finding>, i: nat, earlier: set<string>)
    requires AllInText(text, spans) && i < |spans| && KeywordNearby(lower, text, spans[i].start, keywords)
    requires forall f | f in before :: f.kind in earlier
    ensures Accounted(Kept(before + Tagged(kind, Gated(lower, text, spans, keywords)) + after), kind, spans, i, earlier)
  {
    var all := Tagged(kind, Gated(lower, text, spans, keywords));
    var own := GatedUpTo(lower, text, kind, spans, i, keywords);
    OwnIsPrefix(before, own, Finding(kind, spans[i]), all, after);
    AccountedAt(before, own, before + all + after, kind, spans, i, earlier);
  }

  lemma {:induction false} OwnIsPrefix(
      before: seq<Finding>, own: seq<Finding>, f: Finding, all: seq<Finding>, after: seq<Finding>)
    requires own + [f] <= all
    ensures before + own + [f] <= before + all + after
  {
    assert before + own + [f] == before + (own + [f]);
    assert before + all + after == before + (all + after);
  }

  /** Every match of every pattern is accounted for, e-mails before phones before identity numbers before bank
      accounts; the two bare digit patterns take part where a keyword stands in front. */
  lemma {:induction false} MatchesAreAccounted(
      lower: string -> string, text: string, m: Matches, findings: seq<Finding>, i: nat)
    requires MatchesIn(text, m) && findings == Kept(Candidates(lower, text, m))
    ensures i < |m.emails| ==> Accounted(findings, "email", m.emails, i, {})
    ensures i < |m.phones| ==> Accounted(findings, "phone", m.phones, i, {"email"})
    ensures i < |m.nationalIds|
            && WordInFront(lower, text, m.nationalIds[i].start, {"cccd", "cmnd", "can cuoc", "chung minh"}) ==>
              Accounted(findings, "vn_national_id", m.nationalIds, i, {"email", "phone"})
    ensures i < |m.bankAccounts|
            && WordInFront(lower, text, m.bankAccounts[i].start, {"stk", "so tai khoan", "tai khoan"}) ==>
              Accounted(findings, "bank_account", m.bankAccounts, i, {"email", "phone", "vn_national_id"})
  {
    if i < |m.emails| { EmailAccounted(lower, text, m, i); }
    if i < |m.phones| { PhoneAccounted(lower, text, m, i); }
    if i < |m.nationalIds| {
      KeywordIsInFront(lower, text, m.nationalIds[i].start);
      if KeywordNearby(lower, text, m.nationalIds[i].start, ID_KEYWORDS) { IdAccounted(lower, text, m, i); }
    }
    if i < |m.bankAccounts| {
      KeywordIsInFront(lower, text, m.bankAccounts[i].start);
      if KeywordNearby(lower, text, m.bankAccounts[i].start, BANK_KEYWORDS) { BankAccounted(lower, text, m, i); }
    }
  }

  lemma {:induction false} Grouped<T>(a: seq<T>, b: seq<T>, c: seq<T>, d: seq<T>)
    ensures a + b + c + d == [] + a + (b + c + d)
    ensures a + b + c + d == a + b + (c + d)
    ensures a + b + c + d == (a + b + c) + d + []
  {}

  lemma {:induction false} EmailAccounted(lower: string -> string, text: string, m: Matches, i: nat)
    requires MatchesIn(text, m) && i < |m.emails|
    ensures Accounted(Kept(Candidates(lower, text, m)), "email", m.emails, i, {})
  {
    var emails, phones := Tagged("email", m.emails), Tagged("phone", m.phones);
    var ids := Tagged("vn_national_id", Gated(lower, text, m.nationalIds, ID_KEYWORDS));
    var accounts := Tagged("bank_account", Gated(lower, text, m.bankAccounts, BANK_KEYWORDS));
    Grouped(emails, phones, ids, accounts);
    PlainAccounted([], "email", m.emails, phones + ids + accounts, i, {});
  }

  lemma {:induction false} PhoneAccounted(lower: string -> string, text: string, m: Matches, i: nat)
    requires MatchesIn(text, m) && i < |m.phones|
    ensures Accounted(Kept(Candidates(lower, text, m)), "phone", m.phones, i, {"email"})
  {
    var emails, phones := Tagged("email", m.emails), Tagged("phone", m.phones);
    var ids := Tagged("vn_national_id", Gated(lower, text, m.nationalIds, ID_KEYWORDS));
    var accounts := Tagged("bank_account", Gated(lower, text, m.bankAccounts, BANK_KEYWORDS));
    Grouped(emails, phones, ids, accounts);
    PlainAccounted(emails, "phone", m.phones, ids + accounts, i, {"email"});
  }

  lemma {:induction false} IdAccounted(lower: string -> string, text: string, m: Matches, i: nat)
    requires MatchesIn(text, m) && i < |m.nationalIds|
    requires KeywordNearby(lower, text, m.nationalIds[i].start, ID_KEYWORDS)
    ensures Accounted(Kept(Candidates(lower, text, m)), "vn_national_id", m.nationalIds, i, {"email", "phone"})
  {
    var before := Tagged("email", m.emails) + Tagged("phone", m.phones);
    var rest := Tagged("bank_account", Gated(lower, text, m.bankAccounts, BANK_KEYWORDS));
    GatedAccounted(lower, text, before, "vn_national_id", m.nationalIds, ID_KEYWORDS, rest, i, {"email", "phone"});
  }

  lemma {:induction false} BankAccounted(lower: string -> string, text: string, m: Matches, i: nat)
    requires MatchesIn(text, m) && i < |m.bankAccounts|
    requires KeywordNearby(lower, text, m.bankAccounts[i].start, BANK_KEYWORDS)
    ensures Accounted(Kept(Candidates(lower, text, m)), "bank_account", m.bankAccounts, i,
                      {"email", "phone", "vn_national_id"})
  {
    var emails, phones := Tagged("email", m.emails), Tagged("phone", m.phones);
    var ids := Tagged("vn_national_id", Gated(lower, text, m.nationalIds, ID_KEYWORDS));
    var accounts := Tagged("bank_account", Gated(lower, text, m.bankAccounts, BANK_KEYWORDS));
    Grouped(emails, phones, ids, accounts);
    GatedAccounted(lower, text, emails + phones + ids, "bank_account", m.bankAccounts, BANK_KEYWORDS, [], i,
                   {"email", "phone", "vn_national_id"});
  }

  // ------------------------------------------------------------------ redaction

  function Mark(kind: string): string { "[REDACTED:" + kind + "]" }

  predicate LaterStart(f: Finding, g: Finding) { f.span.start > g.span.start }

  function NegativeStart(f: Finding): int { 0 - f.span.start }

  datatype Piece = Char(c: char) | Redaction(kind: string)

  function StartingAt(findings: seq<Finding>, p: nat): seq<Finding> {
    if findings == [] then []
    else
      var last := findings[|findings| - 1];
      if last.span.start == p then [last] else StartingAt(findings[..|findings| - 1], p)
  }

  /** Reads the text from left to right: a mark where a finding starts, then on behind it. */
  function Pieces(text: string, findings: seq<Finding>, p: nat): seq<Piece>
    decreases |text| - p
  {
    if p >= |text| then []
    else
      var here := StartingAt(findings, p);
      if here == [] || here[0].span.end <= p then [Char(text[p])] + Pieces(text, findings, p + 1)
      else [Redaction(here[0].kind)] + Pieces(text, findings, here[0].span.end)
  }

  lemma {:induction false} StartingAtIs(findings: seq<Finding>, p: nat)
    ensures |StartingAt(findings, p)| <= 1
    ensures StartingAt(findings, p) == [] ==> forall f | f in findings :: f.span.start != p
    ensures StartingAt(findings, p) != [] ==>
              StartingAt(findings, p)[0] in findings && StartingAt(findings, p)[0].span.start == p
  {
    if findings != [] { StartingAtIs(findings[..|findings| - 1], p); }
  }

  function Flat(pieces: seq<Piece>): string {
    if pieces == [] then ""
    else (match pieces[0] case Char(c) => [c] case Redaction(kind) => "[REDACTED:" + kind + "]") + Flat(pieces[1..])
  }

  /** Slicing as Python does it: positions past the end mean the end. */
  function Upto(s: string, n: nat): string { if n < |s| then s[..n] else s }
  function From(s: string, n: nat): string { if n < |s| then s[n..] else "" }

  function RightToLeft(text: string, sorted: seq<Finding>): string {
    if sorted == [] then text
    else
      var f := sorted[|sorted| - 1];
      var done := RightToLeft(text, sorted[..|sorted| - 1]);
      Upto(done, f.span.start) + Mark(f.kind) + From(done, f.span.end)
  }

  /** Replaces one finding after the other, later starts first. */
  method Redact(text: string, findings: seq<Finding>) returns (redacted: string)
    ensures redacted == RightToLeft(text, Sorted(LaterStart, findings))
  {
    redacted := text;
    var sorted := Sorted(LaterStart, findings);
    for i := 0 to |sorted|
      invariant redacted == RightToLeft(text, sorted[..i])
    {
      var f := sorted[i];
      assert sorted[..i + 1][..i] == sorted[..i];
      redacted := Upto(redacted, f.span.start) + Mark(f.kind) + From(redacted, f.span.end);
    }
    assert sorted[..|sorted|] == sorted;
  }

  /** Where the part already rebuilt begins after `i` replacements. */
  function Frontier(text: string, sorted: seq<Finding>, i: nat): nat
    requires i <= |sorted|
  {
    if i == 0 then |text| else sorted[i - 1].span.start
  }

  ghost predicate RightPartDone(text: string, findings: seq<Finding>, sorted: seq<Finding>, i: nat)
    requires i <= |sorted|
  {
    var b := Frontier(text, sorted, i);
    b <= |text| && RightToLeft(text, sorted[..i]) == text[..b] + Flat(Pieces(text, findings, b))
  }

  lemma {:induction false} RightStep(text: string, findings: seq<Finding>, sorted: seq<Finding>, i: nat)
    requires Descending(text, findings, sorted) && 0 < i <= |sorted| && RightPartDone(text, findings, sorted, i - 1)
    ensures RightPartDone(text, findings, sorted, i)
  {
    var b, f := Frontier(text, sorted, i - 1), sorted[i - 1];
    NextRedaction(text, findings, sorted, i - 1, b);
    Splice(text, f.span.start, f.span.end, b, Mark(f.kind), Flat(Pieces(text, findings, b)));
    ReplaceNext(text, sorted, i);
  }

  lemma {:induction false} RightPartIsRebuilt(text: string, findings: seq<Finding>, sorted: seq<Finding>, i: nat)
    requires Descending(text, findings, sorted) && i <= |sorted|
    ensures RightPartDone(text, findings, sorted, i)
  {
    if i == 0 {
      assert text[..|text|] + Flat([]) == text;
    } else {
      RightPartIsRebuilt(text, findings, sorted, i - 1);
      RightStep(text, findings, sorted, i);
    }
  }

  lemma {:induction false} ReplaceNext(text: string, sorted: seq<Finding>, i: nat)
    requires 0 < i <= |sorted|
    ensures var done, f := RightToLeft(text, sorted[..i - 1]), sorted[i - 1];
      RightToLeft(text, sorted[..i]) == Upto(done, f.span.start) + Mark(f.kind) + From(done, f.span.end)
  {
    assert sorted[..i][..i - 1] == sorted[..i - 1];
  }

  /** Because earlier spans keep their positions, replacing from right to left gives the left-to-right
      rebuild of whatever detection reported. */
  lemma {:induction false} RedactionIsRebuild(lower: string -> string, text: string, m: Matches)
    requires MatchesIn(text, m)
    ensures var findings := Kept(Candidates(lower, text, m));
      && RightToLeft(text, Sorted(LaterStart, findings)) == Flat(Pieces(text, findings, 0))
      && Chars(Pieces(text, findings, 0)) == Outside(text, findings, 0)
  {
    CandidatesInText(lower, text, m);
    var findings := Kept(Candidates(lower, text, m));
    KeptIsSeparate(text, Candidates(lower, text, m));
    RebuildOf(text, findings);
    OutsideIsKept(text, findings, 0);
  }

  lemma {:induction false} RebuildOf(text: string, findings: seq<Finding>)
    requires FindingsIn(text, findings) && Separate(findings)
    ensures RightToLeft(text, Sorted(LaterStart, findings)) == Flat(Pieces(text, findings, 0))
  {
    var sorted := Sorted(LaterStart, findings);
    SortedSpans(text, findings);
    RightPartIsRebuilt(text, findings, sorted, |sorted|);
    assert sorted[..|sorted|] == sorted;
    PlainStart(text, findings, sorted, Frontier(text, sorted, |sorted|));
  }

  lemma {:induction false} SortedPair(f: Finding, g: Finding)
    requires f.span.start < g.span.start
    ensures Sorted(LaterStart, [f, g]) == [g, f]
  {
    assert [f, g][..1] == [f] && [f][..0] == [];
    assert Sorted(LaterStart, [f]) == [f];
    assert Placed(LaterStart, [f], g) == [g] + [f];
  }

  /** Only separate spans are safe: of two overlapping ones with different starts, the one that starts
      first cuts as many characters off the other's mark, and then off the text behind it, as they share. */
  lemma {:induction false} OverlapGarbles(text: string, f: Finding, g: Finding)
    requires InText(text, f.span) && InText(text, g.span) && f.span.start < g.span.start < f.span.end
    ensures RightToLeft(text, Sorted(LaterStart, [f, g]))
         == text[..f.span.start] + Mark(f.kind) + From(Mark(g.kind) + text[g.span.end..], f.span.end - g.span.start)
  {
    SortedPair(f, g);
    var once := text[..g.span.start] + Mark(g.kind) + From(text, g.span.end);
    assert RightToLeft(text, [g]) == once by { assert [g][..0] == []; }
    assert RightToLeft(text, [g, f]) == Upto(once, f.span.start) + Mark(f.kind) + From(once, f.span.end) by {
      assert [g, f][..1] == [g];
    }
    CutOnce(text, f.span, g.span, Mark(g.kind));
  }

  lemma {:induction false} CutOnce(text: string, f: Span, g: Span, mark: string)
    requires InText(text, f) && InText(text, g) && f.start < g.start < f.end
    ensures var once := text[..g.start] + mark + From(text, g.end);
      && Upto(once, f.start) == text[..f.start]
      && From(once, f.end) == From(mark + text[g.end..], f.end - g.start)
  {
    var rest := mark + text[g.end..];
    assert text[..g.start] + mark + From(text, g.end) == text[..g.start] + rest;
    assert Upto(text[..g.start] + rest, f.start) == text[..f.start];
    if f.end - g.start < |rest| {
      assert (text[..g.start] + rest)[f.end..] == rest[f.end - g.start..];
    }
  }

  /** The processing order: every finding, later starts first, each ending before the one handled before it. */
  ghost predicate Descending(text: string, findings: seq<Finding>, sorted: seq<Finding>) {
    && (forall f :: f in sorted <==> f in findings)
    && (forall i | 0 <= i < |sorted| :: InText(text, sorted[i].span))
    && (forall i, j | 0 <= i < j < |sorted| :: sorted[j].span.end <= sorted[i].span.start)
  }

  lemma {:induction false} TwiceCounts(s: seq<Finding>, i: nat, j: nat)
    requires i < j < |s|
    ensures s[i] == s[j] ==> multiset(s)[s[i]] >= 2
  {
    assert s == s[..i] + [s[i]] + s[i + 1..j] + [s[j]] + s[j + 1..];
  }

  lemma {:induction false} SeparateOnce(findings: seq<Finding>, k: nat)
    requires Separate(findings) && k < |findings| && findings[k].span.start < findings[k].span.end
    ensures multiset(findings)[findings[k]] == 1
  {
    var f := findings[k];
    assert findings == findings[..k] + [f] + findings[k + 1..];
    forall j | 0 <= j < |findings| && j != k ensures findings[j] != f {
      assert j < k ==> !Overlap(findings[j].span, f.span);
      assert k < j ==> !Overlap(f.span, findings[j].span);
    }
    assert f !in findings[..k] && f !in findings[k + 1..];
  }

  lemma {:induction false} SameMembers(findings: seq<Finding>, sorted: seq<Finding>, f: Finding)
    requires multiset(findings) == multiset(sorted)
    ensures f in sorted <==> f in findings
  {
    assert f in multiset(sorted) <==> f in multiset(findings);
  }

  lemma {:induction false} LaterIsBefore(text: string, findings: seq<Finding>, sorted: seq<Finding>, i: nat, j: nat)
    requires FindingsIn(text, findings) && Separate(findings) && multiset(findings) == multiset(sorted)
    requires i < j < |sorted| && sorted[j].span.start <= sorted[i].span.start
    ensures sorted[j].span.end <= sorted[i].span.start
  {
    SameMembers(findings, sorted, sorted[i]);
    SameMembers(findings, sorted, sorted[j]);
    var k :| 0 <= k < |findings| && findings[k] == sorted[i];
    var l :| 0 <= l < |findings| && findings[l] == sorted[j];
    TwiceCounts(sorted, i, j);
    SeparateOnce(findings, k);
    assert k < l ==> !Overlap(findings[k].span, findings[l].span);
    assert l < k ==> !Overlap(findings[l].span, findings[k].span);
  }

  lemma {:induction false} SortedSpans(text: string, findings: seq<Finding>)
    requires FindingsIn(text, findings) && Separate(findings)
    ensures Descending(text, findings, Sorted(LaterStart, findings))
  {
    var sorted := Sorted(LaterStart, findings);
    SortedInOrder(LaterStart, NegativeStart, findings, 0);
    SortedKeepsAll(LaterStart, findings);
    forall f ensures f in sorted <==> f in findings { SameMembers(findings, sorted, f); }
    forall i | 0 <= i < |sorted| ensures InText(text, sorted[i].span) {
      assert sorted[i] in findings;
    }
    forall i, j | 0 <= i < j < |sorted| ensures sorted[j].span.end <= sorted[i].span.start {
      assert NegativeStart(sorted[i]) <= NegativeStart(sorted[j]);
      LaterIsBefore(text, findings, sorted, i, j);
    }
  }

  lemma {:induction false} PlainStep(text: string, findings: seq<Finding>, p: nat)
    requires p < |text| && forall f | f in findings :: f.span.start != p
    ensures Flat(Pieces(text, findings, p)) == [text[p]] + Flat(Pieces(text, findings, p + 1))
  {
    StartingAtIs(findings, p);
    assert Pieces(text, findings, p)[1..] == Pieces(text, findings, p + 1);
  }

  lemma {:induction false} PlainStretch(text: string, findings: seq<Finding>, a: nat, b: nat)
    requires a <= b <= |text|
    requires forall f | f in findings :: !(a <= f.span.start < b)
    ensures Flat(Pieces(text, findings, a)) == text[a..b] + Flat(Pieces(text, findings, b))
    decreases b - a
  {
    if a < b {
      PlainStretch(text, findings, a + 1, b);
      PlainStep(text, findings, a);
    }
    Stretch(text, a, b, Flat(Pieces(text, findings, b)));
  }

  lemma {:induction false} Stretch(text: string, a: nat, b: nat, rest: string)
    requires a <= b <= |text|
    ensures text[a..b] + rest == if a == b then rest else [text[a]] + (text[a + 1..b] + rest)
  {
  }

  lemma {:induction false} Splice(text: string, start: nat, end: nat, b: nat, mark: string, rest: string)
    requires start < end <= b <= |text|
    ensures Upto(text[..b] + rest, start) + mark + From(text[..b] + rest, end)
         == text[..start] + (mark + (text[end..b] + rest))
  {
    assert Upto(text[..b] + rest, start) == text[..start];
    assert From(text[..b] + rest, end) == text[end..b] + rest;
  }

  lemma {:induction false} NextRedaction(text: string, findings: seq<Finding>, sorted: seq<Finding>, i: nat, b: nat)
    requires Descending(text, findings, sorted) && i < |sorted| && b <= |text|
    requires (i == 0 ==> b == |text|) && (i > 0 ==> b == sorted[i - 1].span.start)
    ensures var f := sorted[i];
      && f.span.start < f.span.end <= b
      && Flat(Pieces(text, findings, f.span.start))
         == Mark(f.kind) + (text[f.span.end..b] + Flat(Pieces(text, findings, b)))
  {
    var f := sorted[i];
    assert f in sorted;
    StartingAtIs(findings, f.span.start);
    forall g | g in findings && f.span.start <= g.span.start < b ensures g == f {
      var k :| 0 <= k < |sorted| && sorted[k] == g;
    }
    PlainStretch(text, findings, f.span.end, b);
    var pieces := Pieces(text, findings, f.span.start);
    assert StartingAt(findings, f.span.start)[0] == f;
    assert pieces[1..] == Pieces(text, findings, f.span.end);
  }

  lemma {:induction false} PlainStart(text: string, findings: seq<Finding>, sorted: seq<Finding>, b: nat)
    requires Descending(text, findings, sorted) && b <= |text|
    requires (sorted == [] ==> b == |text|) && (sorted != [] ==> b == sorted[|sorted| - 1].span.start)
    ensures text[..b] + Flat(Pieces(text, findings, b)) == Flat(Pieces(text, findings, 0))
  {
    forall g | g in findings ensures g.span.start >= b {
      var k :| 0 <= k < |sorted| && sorted[k] == g;
    }
    PlainStretch(text, findings, 0, b);
    assert text[0..b] == text[..b];
  }

  // ------------------------------------------------------------------ what redaction keeps

  predicate Covered(findings: seq<Finding>, p: nat) {
    exists i | 0 <= i < |findings| :: findings[i].span.start <= p < findings[i].span.end
  }

  function Outside(text: string, findings: seq<Finding>, p: nat): string
    decreases |text| - p
  {
    if p >= |text| then "" else (if Covered(findings, p) then "" else [text[p]]) + Outside(text, findings, p + 1)
  }

  function Chars(pieces: seq<Piece>): string {
    if pieces == [] then "" else (if pieces[0].Char? then [pieces[0].c] else "") + Chars(pieces[1..])
  }

  /** The rebuild holds exactly the characters outside every finding, in their order. */
  lemma {:induction false} OutsideIsKept(text: string, findings: seq<Finding>, p: nat)
    requires FindingsIn(text, findings) && Separate(findings) && p <= |text|
    requires forall f | f in findings :: !(f.span.start < p < f.span.end)
    ensures Chars(Pieces(text, findings, p)) == Outside(text, findings, p)
    decreases |text| - p
  {
    if p < |text| {
      StartingAtIs(findings, p);
      var here := StartingAt(findings, p);
      var pieces := Pieces(text, findings, p);
      if here == [] {
        assert pieces[1..] == Pieces(text, findings, p + 1);
        OutsideIsKept(text, findings, p + 1);
      } else {
        var f := here[0];
        var k :| 0 <= k < |findings| && findings[k] == f;
        assert pieces[1..] == Pieces(text, findings, f.span.end);
        OutsideIsKept(text, findings, f.span.end);
        CoveredIsDropped(text, findings, k, p);
      }
    }
  }

  lemma {:induction false} CoveredIsDropped(text: string, findings: seq<Finding>, k: nat, p: nat)
    requires FindingsIn(text, findings) && k < |findings|
    requires findings[k].span.start <= p <= findings[k].span.end
    ensures Outside(text, findings, p) == Outside(text, findings, findings[k].span.end)
    decreases findings[k].span.end - p
  {
    if p < findings[k].span.end { CoveredIsDropped(text, findings, k, p + 1); }
  }

}
