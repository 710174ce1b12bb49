/** Code-point order on text, as used by `orderBy` on a string column and by Python's sort on ISO stamps;
    Python's `strip`; decimal numbers; and substrings. */
module TextOrder {

  predicate IsSpace(c: char) {
    var n := c as int;
    9 <= n <= 13 || 28 <= n <= 32 || n in {133, 160, 5760, 8232, 8233, 8239, 8287, 12288} || 8192 <= n <= 8202
  }

  function Strip(s: string): string
    decreases |s|
  {
    if s != [] && IsSpace(s[0]) then Strip(s[1..])
    else if s != [] && IsSpace(s[|s| - 1]) then Strip(s[..|s| - 1])
    else s
  }

  /** The twenty-nine characters that count as white space, by code point. */
  lemma {:induction false} SpacesMeaning(c: char)
    ensures IsSpace(c)
       <==> c as int in {9, 10, 11, 12, 13, 28, 29, 30, 31, 32, 133, 160, 5760, 8192, 8193, 8194, 8195, 8196, 8197,
                         8198, 8199, 8200, 8201, 8202, 8232, 8233, 8239, 8287, 12288}
  {}

  predicate Trimmed(s: string) { s == "" || (!IsSpace(s[0]) && !IsSpace(s[|s| - 1])) }

  lemma {:induction false} StripTrims(s: string)
    ensures Trimmed(Strip(s))
    decreases |s|
  {
    if s != [] && IsSpace(s[0]) { StripTrims(s[1..]); }
    else if s != [] && IsSpace(s[|s| - 1]) { StripTrims(s[..|s| - 1]); }
  }

  predicate AllSpaces(s: string) { forall i | 0 <= i < |s| :: IsSpace(s[i]) }

  /** Stripping takes spaces off both ends, and all of them. */
  lemma {:induction false} StripIsInside(s: string) returns (front: string, back: string)
    ensures s == front + Strip(s) + back && AllSpaces(front) && AllSpaces(back)
    decreases |s|
  {
    if s != [] && IsSpace(s[0]) {
      var inner;
      inner, back := StripIsInside(s[1..]);
      front := [s[0]] + inner;
      assert s == [s[0]] + (inner + Strip(s) + back);
    } else if s != [] && IsSpace(s[|s| - 1]) {
      var inner;
      front, inner := StripIsInside(s[..|s| - 1]);
      back := inner + [s[|s| - 1]];
      assert s == (front + Strip(s) + inner) + [s[|s| - 1]];
    } else {
      front, back := "", "";
    }
  }

  lemma {:induction false} ContainsIff(text: string, word: string)
    ensures Contains(text, word) <==> exists a, b :: text == a + (word + b)
  {
    if Contains(text, word) {
      var i :| 0 <= i <= |text| && word <= text[i..];
      assert text == text[..i] + (word + text[i..][|word|..]);
    }
    if a, b :| text == a + (word + b) {
      assert text[|a|..] == word + b;
    }
  }

  /** The number a text of decimal digits stands for. */
  function ValueOf(s: string): int {
    if s == "" then 0 else 10 * ValueOf(s[..|s| - 1]) + (s[|s| - 1] as int - '0' as int)
  }

  predicate Contains(text: string, word: string) {
    exists i | 0 <= i <= |text| :: word <= text[i..]
  }

  predicate Before(a: string, b: string) {
    b != [] && (a == [] || a[0] < b[0] || (a[0] == b[0] && Before(a[1..], b[1..])))
  }

  /** At the first position where two texts part, one of them has ended or has the smaller character. */
  ghost predicate PartsAt(a: string, b: string, k: nat) {
    && k <= |a| && k < |b| && a[..k] == b[..k] && (k == |a| || a[k] < b[k])
  }

  lemma {:induction false} BeforeMeaning(a: string, b: string)
    ensures Before(a, b) <==> exists k: nat :: PartsAt(a, b, k)
  {
    if Before(a, b) {
      var k := FirstParting(a, b);
    }
    if k: nat :| PartsAt(a, b, k) { PartingDecides(a, b, k); }
  }

  lemma {:induction false} FirstParting(a: string, b: string) returns (k: nat)
    requires Before(a, b)
    ensures PartsAt(a, b, k)
  {
    if a == [] || a[0] < b[0] {
      k := 0;
    } else {
      var n := FirstParting(a[1..], b[1..]);
      k := n + 1;
      assert a[..k] == [a[0]] + a[1..][..n] && b[..k] == [b[0]] + b[1..][..n];
    }
  }

  lemma {:induction false} PartingDecides(a: string, b: string, k: nat)
    requires PartsAt(a, b, k)
    ensures Before(a, b)
  {
    if k > 0 {
      assert a[0] == a[..k][0] == b[..k][0] == b[0];
      assert a[1..][..k - 1] == a[..k][1..] && b[1..][..k - 1] == b[..k][1..];
      PartingDecides(a[1..], b[1..], k - 1);
    }
  }

  lemma {:induction false} NotBoth(a: string, b: string)
    ensures !(Before(a, b) && Before(b, a))
  {
    if a != [] && b != [] && a[0] == b[0] { NotBoth(a[1..], b[1..]); }
  }

  lemma {:induction false} OneWay(a: string, b: string)
    ensures a == b || Before(a, b) || Before(b, a)
  {
    if a != [] && b != [] && a[0] == b[0] {
      OneWay(a[1..], b[1..]);
      assert a == [a[0]] + a[1..] && b == [b[0]] + b[1..];
    }
  }

  /** A common prefix does not decide; the first difference does. */
  lemma {:induction false} FirstDifference(p: string, a: string, b: string)
    ensures Before(p + a, p + b) <==> Before(a, b)
  {
    if p == [] {
      assert p + a == a && p + b == b;
    } else {
      assert (p + a)[1..] == p[1..] + a && (p + b)[1..] == p[1..] + b;
      FirstDifference(p[1..], a, b);
    }
  }

  /** Equal-length prefixes decide before anything behind them. */
  lemma {:induction false} PrefixDecides(a: string, b: string, s: string, t: string)
    requires |a| == |b| && Before(a, b)
    ensures Before(a + s, b + t)
  {
    assert (a + s)[0] == a[0] && (b + t)[0] == b[0];
    if a[0] == b[0] {
      assert (a + s)[1..] == a[1..] + s && (b + t)[1..] == b[1..] + t;
      PrefixDecides(a[1..], b[1..], s, t);
    }
  }

  ghost predicate Ascending(names: seq<string>) {
    forall i, j | 0 <= i < j < |names| :: Before(names[i], names[j])
  }

  /** Sorting leaves no choice: a set of names has one ascending listing. */
  lemma {:induction false} AscendingIsUnique(a: seq<string>, b: seq<string>)
    requires Ascending(a) && Ascending(b) && forall s :: s in a <==> s in b
    ensures a == b
  {
    if a == [] {
      assert forall s | s in multiset(b) :: s in b;
      assert multiset(b) == multiset{} && |multiset(b)| == |b|;
    } else {
      assert a[0] in a;
      HeadsMatch(a, b);
      forall s ensures s in a[1..] <==> s in b[1..] {
        InTail(a, s);
        InTail(b, s);
      }
      AscendingIsUnique(a[1..], b[1..]);
    }
  }

  lemma {:induction false} HeadsMatch(a: seq<string>, b: seq<string>)
    requires Ascending(a) && Ascending(b) && a != [] && b != [] && a[0] in b && b[0] in a
    ensures a[0] == b[0]
  {
    if a[0] != b[0] {
      var i :| 0 <= i < |b| && b[i] == a[0];
      var j :| 0 <= j < |a| && a[j] == b[0];
      assert Before(b[0], b[i]) && Before(a[0], a[j]);
      NotBoth(a[0], b[0]);
    }
  }

  lemma {:induction false} InTail(a: seq<string>, s: string)
    requires Ascending(a) && a != []
    ensures s in a[1..] <==> s in a && s != a[0]
  {
    NotBoth(a[0], a[0]);
  }

  // ------------------------------------------------------------------ every set of names can be listed

  lemma {:induction false} Transitive(a: string, b: string, c: string)
    requires Before(a, b) && Before(b, c)
    ensures Before(a, c)
  {
    if a != [] && a[0] == b[0] && b[0] == c[0] { Transitive(a[1..], b[1..], c[1..]); }
  }

  lemma {:induction false} ListingWith(names: seq<string>, s: string) returns (r: seq<string>)
    requires Ascending(names) && s !in names
    ensures Ascending(r) && forall x :: x in r <==> x in names || x == s
  {
    if names == [] {
      r := [s];
    } else {
      var head, tail := names[0], names[1..];
      OneWay(s, head);
      if Before(s, head) {
        r := [s] + names;
        forall j | 0 < j < |names| ensures Before(s, names[j]) { Transitive(s, head, names[j]); }
      } else {
        var rest := ListingWith(tail, s);
        r := [head] + rest;
        forall j | 0 <= j < |rest| ensures Before(head, rest[j]) {
          assert rest[j] in rest;
          if rest[j] != s { InTail(names, rest[j]); }
        }
      }
    }
  }

  lemma {:induction false} ListingExists(names: seq<string>) returns (r: seq<string>)
    ensures Ascending(r) && forall x :: x in r <==> x in names
  {
    if names == [] {
      r := [];
    } else {
      var rest := ListingExists(names[1..]);
      assert names == [names[0]] + names[1..];
      if names[0] in rest { r := rest; } else { r := ListingWith(rest, names[0]); }
    }
  }
}
