/**
 * Phone normalisation and the canonical phone format of the employee store
 * (`normalizePhone`, `validateAndFormatPhone`, `PHONE_PATTERN` in src/store.js).
 */
module PhoneFormat {
  import opened Wrappers

  /** The characters JavaScript's `\s` matches; `String.prototype.trim` strips exactly these. */
  predicate IsSpace(c: char) {
    || c == '\t' || c == '\n' || c == '\U{000B}' || c == '\U{000C}' || c == '\r' || c == ' '
    || c == '\U{00A0}' || c == '\U{1680}' || ('\U{2000}' <= c <= '\U{200A}')
    || c == '\U{2028}' || c == '\U{2029}' || c == '\U{202F}' || c == '\U{205F}'
    || c == '\U{3000}' || c == '\U{FEFF}'
  }

  /** `\d` without the `u` flag: an ASCII digit. */
  predicate IsDigit(c: char) {
    '0' <= c <= '9'
  }

  /** Step 1 of `normalizePhone`: `.replace(/-/g, ' ')`. */
  function ReplaceHyphens(s: string): string {
    seq(|s|, i requires 0 <= i < |s| => if s[i] == '-' then ' ' else s[i])
  }

  /** Drops the leading run of whitespace. */
  function DropSpaces(s: string): string {
    if s != [] && IsSpace(s[0]) then DropSpaces(s[1..]) else s
  }

  /** The leading run is removed: what is left is a suffix that starts with no whitespace, and what went was whitespace. */
  lemma {:induction false} DropSpacesSpec(s: string)
    ensures var r := DropSpaces(s);
            && |r| <= |s| && r == s[|s| - |r|..]
            && (r == [] || !IsSpace(r[0]))
            && forall i :: 0 <= i < |s| - |r| ==> IsSpace(s[i])
  {
    if s != [] && IsSpace(s[0]) {
      DropSpacesSpec(s[1..]);
      var r := DropSpaces(s[1..]);
      assert s[1..][|s| - 1 - |r|..] == s[|s| - |r|..];
      forall i | 0 <= i < |s| - |r| ensures IsSpace(s[i]) {
        if i > 0 { assert s[i] == s[1..][i - 1]; }
      }
    }
  }

  /** Drops the trailing run of whitespace. */
  function DropTrailingSpaces(s: string): string {
    if s != [] && IsSpace(s[|s| - 1]) then DropTrailingSpaces(s[..|s| - 1]) else s
  }

  /** The trailing run is removed: what is left is a prefix that ends with no whitespace, and what went was whitespace. */
  lemma {:induction false} DropTrailingSpacesSpec(s: string)
    ensures var r := DropTrailingSpaces(s);
            && |r| <= |s| && r == s[..|r|]
            && (r == [] || !IsSpace(r[|r| - 1]))
            && forall i :: |r| <= i < |s| ==> IsSpace(s[i])
  {
    if s != [] && IsSpace(s[|s| - 1]) {
      var t := s[..|s| - 1];
      DropTrailingSpacesSpec(t);
      var r := DropTrailingSpaces(t);
      assert t[..|r|] == s[..|r|];
      forall i | |r| <= i < |s| ensures IsSpace(s[i]) {
        if i < |s| - 1 { assert s[i] == t[i]; }
      }
    }
  }

  /** True when every whitespace character of `s` is a plain space and no two are adjacent. */
  predicate SingleSpaced(s: string) {
    && (forall i :: 0 <= i < |s| && IsSpace(s[i]) ==> s[i] == ' ')
    && (forall i :: 0 <= i < |s| - 1 ==> !(IsSpace(s[i]) && IsSpace(s[i + 1])))
  }

  /** Prepending `c` keeps a string single-spaced when `c` is no whitespace or a space before a non-space. */
  lemma ConsSingleSpaced(c: char, rest: string)
    requires SingleSpaced(rest)
    requires IsSpace(c) ==> c == ' ' && (rest == [] || !IsSpace(rest[0]))
    ensures SingleSpaced([c] + rest)
  {
    var r := [c] + rest;
    forall i | 0 < i < |r| ensures r[i] == rest[i - 1] {
    }
  }

  /** Every element of a suffix is an element of the whole. */
  lemma SuffixMembers(s: string, k: nat)
    requires k <= |s|
    ensures forall c :: c in s[k..] ==> c in s
  {
    forall c | c in s[k..] ensures c in s {
      var j :| 0 <= j < |s[k..]| && s[k..][j] == c;
      assert s[k + j] == c;
    }
  }

  /**
   * Step 2 of `normalizePhone`: `.replace(/\s+/g, ' ')`, every maximal run of
   * whitespace becomes one plain space and everything else is kept.
   */
  function Collapse(s: string): string
    decreases |s|
  {
    if s == [] then []
    else if IsSpace(s[0]) then
      var t := DropSpaces(s);
      DropSpacesSpec(s);
      [' '] + Collapse(t)
    else [s[0]] + Collapse(s[1..])
  }

  /**
   * Collapsing leaves a single-spaced string no longer than its input, that
   * starts with whitespace exactly when the input does, and whose other
   * characters all come from the input.
   */
  lemma {:induction false} CollapseSpec(s: string)
    decreases |s|
    ensures var r := Collapse(s);
            && SingleSpaced(r) && |r| <= |s|
            && ((r != [] && IsSpace(r[0])) <==> (s != [] && IsSpace(s[0])))
            && forall c :: c in r && !IsSpace(c) ==> c in s
  {
    if s != [] && IsSpace(s[0]) {
      var t := DropSpaces(s);
      DropSpacesSpec(s);
      CollapseSpec(t);
      ConsSingleSpaced(' ', Collapse(t));
      SuffixMembers(s, |s| - |t|);
    } else if s != [] {
      CollapseSpec(s[1..]);
      ConsSingleSpaced(s[0], Collapse(s[1..]));
      SuffixMembers(s, 1);
    }
  }

  /** Step 3 of `normalizePhone`: `.trim()`. */
  function Trim(s: string): string {
    DropTrailingSpaces(DropSpaces(s))
  }

  /** Trimming leaves a slice of the input with no whitespace at either end. */
  lemma TrimSpec(s: string)
    ensures var r := Trim(s);
            && (r == [] || (!IsSpace(r[0]) && !IsSpace(r[|r| - 1])))
            && exists a, b :: 0 <= a <= b <= |s| && r == s[a..b]
  {
    var t := DropSpaces(s);
    DropSpacesSpec(s);
    DropTrailingSpacesSpec(t);
    var r := DropTrailingSpaces(t);
    assert r == s[|s| - |t|..|s| - |t| + |r|];
  }

  /**
   * `normalizePhone`: hyphens become spaces, whitespace runs collapse to one
   * space, then trim. The result is canonical and never longer than the input.
   */
  function NormalizePhone(raw: string): (r: string)
    ensures Canonical(r)
    ensures |r| <= |raw|
  {
    var h := ReplaceHyphens(raw);
    assert '-' !in h;
    var c := Collapse(h);
    CollapseSpec(h);
    assert '-' !in c;
    TrimSpec(c);
    var a, b :| 0 <= a <= b <= |c| && Trim(c) == c[a..b];
    SliceKeepsSingleSpaced(c, a, b);
    Trim(c)
  }

  /** The shape of a string that normalisation leaves as it is. */
  predicate Canonical(s: string) {
    && '-' !in s
    && SingleSpaced(s)
    && (s == [] || (!IsSpace(s[0]) && !IsSpace(s[|s| - 1])))
  }

  /** `PHONE_PATTERN`, `/^\+\(90\) \d{3} \d{3} \d{2} \d{2}$/`, written as a template where `d` stands for a digit. */
  const PhoneTemplate: string := "+(90) ddd ddd dd dd"

  predicate MatchesPattern(s: string) {
    && |s| == |PhoneTemplate|
    && forall i :: 0 <= i < |s| ==>
         if PhoneTemplate[i] == 'd' then IsDigit(s[i]) else s[i] == PhoneTemplate[i]
  }

  /** The pattern accepts the documented format and rejects, at full length, a regrouped number and a missing space. */
  lemma PatternExamples()
    ensures MatchesPattern("+(90) 555 123 45 67")
    ensures !MatchesPattern("+(90) 555 123 456 7")
    ensures !MatchesPattern("+(90)0555 123 45 67")
  {
    assert "+(90) 555 123 456 7"[16] != PhoneTemplate[16];
    assert "+(90)0555 123 45 67"[5] != PhoneTemplate[5];
  }

  /** `validateAndFormatPhone`: the normalised phone when it has the canonical format, otherwise `null`. */
  function ValidateAndFormatPhone(raw: string): (r: Option<string>)
    ensures r.Some? <==> MatchesPattern(NormalizePhone(raw))
    ensures r.Some? ==> r.value == NormalizePhone(raw) && |r.value| == 19
  {
    var formatted := NormalizePhone(raw);
    if MatchesPattern(formatted) then Some(formatted) else None
  }

  // ---------------------------------------------------------------------------
  // Properties of normalisation
  // ---------------------------------------------------------------------------

  lemma SliceKeepsSingleSpaced(s: string, a: int, b: int)
    requires 0 <= a <= b <= |s| && SingleSpaced(s) && '-' !in s
    ensures SingleSpaced(s[a..b]) && '-' !in s[a..b]
  {
    var t := s[a..b];
    forall i | 0 <= i < |t| - 1 ensures !(IsSpace(t[i]) && IsSpace(t[i + 1])) {
      assert t[i] == s[a + i] && t[i + 1] == s[a + i + 1];
    }
  }

  lemma DropSpacesOfSingle(s: string)
    requires s != [] && s[0] == ' ' && SingleSpaced(s)
    ensures DropSpaces(s) == s[1..]
  {
    assert |s| > 1 ==> !IsSpace(s[1]);
  }

  lemma {:induction false} CollapseFixed(s: string)
    requires SingleSpaced(s)
    ensures Collapse(s) == s
    decreases |s|
  {
    if s != [] {
      assert SingleSpaced(s[1..]) by {
        var t := s[1..];
        forall i | 0 <= i < |t| - 1 ensures !(IsSpace(t[i]) && IsSpace(t[i + 1])) {
          assert t[i] == s[i + 1] && t[i + 1] == s[i + 2];
        }
      }
      if IsSpace(s[0]) {
        DropSpacesOfSingle(s);
      }
      CollapseFixed(s[1..]);
    }
  }

  /** A canonical string is its own normal form. */
  lemma CanonicalFixed(s: string)
    requires Canonical(s)
    ensures NormalizePhone(s) == s
  {
    assert ReplaceHyphens(s) == s;
    CollapseFixed(s);
    assert DropSpaces(s) == s;
    assert DropTrailingSpaces(s) == s;
  }

  /** Normalising twice gives the same result as normalising once. */
  lemma NormalizeIdempotent(raw: string)
    ensures NormalizePhone(NormalizePhone(raw)) == NormalizePhone(raw)
  {
    CanonicalFixed(NormalizePhone(raw));
  }

  /** A string of the canonical phone format is canonical: so the formatted phone validates to itself. */
  lemma PatternIsCanonical(s: string)
    requires MatchesPattern(s)
    ensures Canonical(s)
  {
    assert forall i :: 0 <= i < |s| ==> (IsSpace(s[i]) <==> PhoneTemplate[i] == ' ');
    assert forall i :: 0 <= i < |s| ==> s[i] != '-';
  }

  /** A value returned by `validateAndFormatPhone` is returned unchanged when validated again. */
  lemma ValidateFormatted(raw: string)
    requires ValidateAndFormatPhone(raw).Some?
    ensures ValidateAndFormatPhone(ValidateAndFormatPhone(raw).value) == ValidateAndFormatPhone(raw)
  {
    var f := ValidateAndFormatPhone(raw).value;
    PatternIsCanonical(f);
    CanonicalFixed(f);
  }

  /** Normalising a string that is canonical once its hyphens are spaces just replaces the hyphens. */
  lemma NormalizeOnlyHyphens(raw: string, h: string)
    requires ReplaceHyphens(raw) == h && Canonical(h)
    ensures NormalizePhone(raw) == h
  {
    CollapseFixed(h);
    assert DropSpaces(h) == h;
    assert DropTrailingSpaces(h) == h;
  }

  /** `'+(90)-555-111-11-11'` is stored as `'+(90) 555 111 11 11'`. */
  lemma HyphenatedExample()
    ensures ValidateAndFormatPhone("+(90)-555-111-11-11") == Some("+(90) 555 111 11 11")
  {
    var want := "+(90) 555 111 11 11";
    assert MatchesPattern(want);
    PatternIsCanonical(want);
    NormalizeOnlyHyphens("+(90)-555-111-11-11", want);
  }

  /** A word without whitespace passes through the collapse unchanged. */
  lemma {:induction false} CollapseWord(w: string, rest: string)
    requires forall i :: 0 <= i < |w| ==> !IsSpace(w[i])
    ensures Collapse(w + rest) == w + Collapse(rest)
    decreases |w|
  {
    if w == [] {
      assert w + rest == rest;
    } else {
      assert (w + rest)[0] == w[0];
      assert (w + rest)[1..] == w[1..] + rest;
      CollapseWord(w[1..], rest);
      assert w + Collapse(rest) == [w[0]] + (w[1..] + Collapse(rest));
    }
  }

  /** Dropping a whitespace run stops at the first character that is not whitespace. */
  lemma {:induction false} DropRun(sp: string, rest: string)
    requires forall i :: 0 <= i < |sp| ==> IsSpace(sp[i])
    requires rest == [] || !IsSpace(rest[0])
    ensures DropSpaces(sp + rest) == rest
    decreases |sp|
  {
    if sp == [] {
      assert sp + rest == rest;
    } else {
      assert (sp + rest)[1..] == sp[1..] + rest;
      DropRun(sp[1..], rest);
    }
  }

  /** A non-empty whitespace run collapses to one plain space. */
  lemma CollapseRun(sp: string, rest: string)
    requires sp != [] && forall i :: 0 <= i < |sp| ==> IsSpace(sp[i])
    requires rest == [] || !IsSpace(rest[0])
    ensures Collapse(sp + rest) == [' '] + Collapse(rest)
  {
    assert (sp + rest)[0] == sp[0];
    DropRun(sp, rest);
  }

  /** A non-empty group of characters that are not whitespace. */
  predicate Word(w: string) {
    w != [] && forall i :: 0 <= i < |w| ==> !IsSpace(w[i])
  }

  /** A non-empty run of whitespace. */
  predicate Gap(sp: string) {
    sp != [] && forall i :: 0 <= i < |sp| ==> IsSpace(sp[i])
  }

  /** A word followed by a gap keeps the word and leaves one space in place of the gap. */
  lemma CollapseJoin(w: string, sp: string, rest: string)
    requires Word(w) && Gap(sp) && rest != [] && !IsSpace(rest[0])
    ensures Collapse(w + (sp + rest)) == w + ([' '] + Collapse(rest))
  {
    CollapseWord(w, sp + rest);
    CollapseRun(sp, rest);
  }

  /** Five groups separated by whitespace runs of any length collapse to the groups separated by single spaces. */
  lemma CollapseGroups(g1: string, s1: string, g2: string, s2: string, g3: string, s3: string, g4: string, s4: string, g5: string)
    requires Word(g1) && Word(g2) && Word(g3) && Word(g4) && Word(g5)
    requires Gap(s1) && Gap(s2) && Gap(s3) && Gap(s4)
    ensures Collapse(g1 + (s1 + (g2 + (s2 + (g3 + (s3 + (g4 + (s4 + g5))))))))
         == g1 + (" " + (g2 + (" " + (g3 + (" " + (g4 + (" " + g5)))))))
  {
    var r4 := g4 + (s4 + g5);
    var r3 := g3 + (s3 + r4);
    var r2 := g2 + (s2 + r3);
    CollapseWord(g5, []);
    assert g5 + [] == g5;
    assert g5[0] == g5[0] && r4[0] == g4[0] && r3[0] == g3[0] && r2[0] == g2[0];
    CollapseJoin(g4, s4, g5);
    CollapseJoin(g3, s3, r4);
    CollapseJoin(g2, s2, r3);
    CollapseJoin(g1, s1, r2);
  }

  /** A raw phone whose collapsed form is already canonical normalises to that form: trimming has nothing left to do. */
  lemma NormalizeByCollapse(raw: string, c: string)
    requires Collapse(ReplaceHyphens(raw)) == c && Canonical(c)
    ensures NormalizePhone(raw) == c
  {
    assert DropSpaces(c) == c;
    assert DropTrailingSpaces(c) == c;
  }

  /** Without a hyphen the first normalisation step changes nothing. */
  lemma NoHyphenUnchanged(s: string)
    requires '-' !in s
    ensures ReplaceHyphens(s) == s
  {
    assert forall i | 0 <= i < |s| :: s[i] != '-';
  }

  /** The groups and gaps of the multi-space example, and how they join before and after the collapse. */
  lemma ExampleGroups(g1: string, s1: string, g2: string, s2: string, g3: string, s3: string, g4: string, s4: string, g5: string)
    requires g1 == "+(90)" && s1 == "  " && g2 == "555" && s2 == "   " && g3 == "123"
    requires s3 == " " && g4 == "45" && s4 == "   " && g5 == "67"
    ensures Word(g1) && Word(g2) && Word(g3) && Word(g4) && Word(g5)
    ensures Gap(s1) && Gap(s2) && Gap(s3) && Gap(s4)
    ensures g1 + (s1 + (g2 + (s2 + (g3 + (s3 + (g4 + (s4 + g5))))))) == "+(90)  555   123 45   67"
    ensures g1 + (" " + (g2 + (" " + (g3 + (" " + (g4 + (" " + g5))))))) == "+(90) 555 123 45 67"
  {
    assert forall i :: 0 <= i < 5 ==> !IsSpace(g1[i]);
  }

  /** The collapse step on the multi-space example, cut into its groups and gaps. */
  lemma ExampleCollapse(raw: string, want: string)
    requires raw == "+(90)  555   123 45   67" && want == "+(90) 555 123 45 67"
    ensures Collapse(raw) == want
  {
    var g1, s1, g2, s2, g3, s3, g4, s4, g5 := "+(90)", "  ", "555", "   ", "123", " ", "45", "   ", "67";
    ExampleGroups(g1, s1, g2, s2, g3, s3, g4, s4, g5);
    CollapseGroups(g1, s1, g2, s2, g3, s3, g4, s4, g5);
  }

  /** The three steps of `normalizePhone` on the multi-space example, then the pattern. */
  lemma ExampleNormalize(raw: string, want: string)
    requires raw == "+(90)  555   123 45   67" && want == "+(90) 555 123 45 67"
    ensures NormalizePhone(raw) == want
    ensures ValidateAndFormatPhone(raw) == Some(want)
  {
    assert '-' !in raw;
    NoHyphenUnchanged(raw);
    assert MatchesPattern(want);
    PatternIsCanonical(want);
    ExampleCollapse(raw, want);
    NormalizeByCollapse(raw, want);
  }

  /** Repeated spaces between the groups are collapsed: `'+(90)  555   123 45   67'` is stored as `'+(90) 555 123 45 67'`. */
  lemma MultiSpaceExample()
    ensures NormalizePhone("+(90)  555   123 45   67") == "+(90) 555 123 45 67"
    ensures ValidateAndFormatPhone("+(90)  555   123 45   67") == Some("+(90) 555 123 45 67")
  {
    ExampleNormalize("+(90)  555   123 45   67", "+(90) 555 123 45 67");
  }

  /** Normalisation never lengthens a phone, so fewer than 19 characters can never match the format. */
  lemma ShortPhoneRejected(raw: string)
    requires |raw| < |PhoneTemplate|
    ensures ValidateAndFormatPhone(raw) == None
  {
    assert |NormalizePhone(raw)| < |PhoneTemplate|;
  }

  /** A number without the `+(90) ` prefix is rejected. */
  lemma MissingPrefixExample()
    ensures ValidateAndFormatPhone("555-123-45-67") == None
  {
    ShortPhoneRejected("555-123-45-67");
  }
}
