/**
 * The pieces of Go's `strings` and `strconv` packages that the cron parser
 * relies on, over strings of Unicode code points.
 */
module GoStrings {
  import opened Wrappers

  /** Go's `unicode.IsSpace`: the Latin-1 spaces plus the Unicode White_Space code points. */
  predicate IsSpace(c: char) {
    || c == '\t' || c == '\n' || c == '\U{0B}' || c == '\U{0C}' || c == '\r' || c == ' '
    || c == '\U{85}' || c == '\U{A0}' || c == '\U{1680}'
    || ('\U{2000}' <= c <= '\U{200A}')
    || c == '\U{2028}' || c == '\U{2029}' || c == '\U{202F}' || c == '\U{205F}' || c == '\U{3000}'
  }

  predicate NoSpace(w: string) {
    forall i :: 0 <= i < |w| ==> !IsSpace(w[i])
  }

  // ---------------------------------------------------------------------------
  // strings.Fields

  /** The number of leading white-space characters of `s`. */
  function SpacePrefix(s: string): (n: nat)
    ensures n <= |s|
    ensures forall i :: 0 <= i < n ==> IsSpace(s[i])
    ensures n < |s| ==> !IsSpace(s[n])
  {
    if s != [] && IsSpace(s[0]) then 1 + SpacePrefix(s[1..]) else 0
  }

  /** The number of leading non-white-space characters of `s`. */
  function WordPrefix(s: string): (n: nat)
    ensures n <= |s|
    ensures forall i :: 0 <= i < n ==> !IsSpace(s[i])
    ensures n < |s| ==> IsSpace(s[n])
  {
    if s != [] && !IsSpace(s[0]) then 1 + WordPrefix(s[1..]) else 0
  }

  /** Go's `strings.Fields`: the maximal runs of non-white-space characters, in order. */
  function Fields(s: string): (words: seq<string>)
    ensures forall i :: 0 <= i < |words| ==> words[i] != [] && NoSpace(words[i])
    decreases |s|
  {
    var t := s[SpacePrefix(s)..];
    if t == [] then []
    else
      var n := WordPrefix(t);
      assert n > 0 && NoSpace(t[..n]);
      [t[..n]] + Fields(t[n..])
  }

  predicate AllSpace(s: string) {
    forall i :: 0 <= i < |s| ==> IsSpace(s[i])
  }

  /** `lead`, then each word followed by its separator. */
  function Spaced(lead: string, words: seq<string>, seps: seq<string>): string
    requires |seps| == |words|
    decreases |words|
  {
    if words == [] then lead else lead + words[0] + Spaced(seps[0], words[1..], seps[1..])
  }

  /** Words with white space before them, between them (at least one character) and after
      them: how every string is made up, as `SpacedOfFields` shows. */
  predicate WellSpaced(lead: string, words: seq<string>, seps: seq<string>) {
    && |seps| == |words| && AllSpace(lead)
    && forall i :: 0 <= i < |words| ==>
         words[i] != [] && NoSpace(words[i]) && AllSpace(seps[i]) && (i + 1 < |words| ==> seps[i] != [])
  }

  lemma {:induction false} WordPrefixOfJoin(w: string, rest: string)
    requires NoSpace(w)
    requires rest == [] || IsSpace(rest[0])
    ensures WordPrefix(w + rest) == |w|
    decreases |w|
  {
    if w != [] {
      assert (w + rest)[1..] == w[1..] + rest;
      WordPrefixOfJoin(w[1..], rest);
    } else {
      assert w + rest == rest;
    }
  }

  /** A word followed by white space or by nothing is the first field. */
  lemma FieldsOfWordThen(w: string, rest: string)
    requires w != [] && NoSpace(w)
    requires rest == [] || IsSpace(rest[0])
    ensures Fields(w + rest) == [w] + Fields(rest)
  {
    var s := w + rest;
    assert SpacePrefix(s) == 0 && s[0..] == s;
    WordPrefixOfJoin(w, rest);
    assert s[..|w|] == w && s[|w|..] == rest;
  }

  lemma {:induction false} SpacePrefixAfterSpaces(sp: string, s: string)
    requires AllSpace(sp)
    ensures SpacePrefix(sp + s) == |sp| + SpacePrefix(s)
    decreases |sp|
  {
    if sp == [] {
      assert sp + s == s;
    } else {
      assert (sp + s)[1..] == sp[1..] + s;
      SpacePrefixAfterSpaces(sp[1..], s);
    }
  }

  /** White space in front of a string, however much, changes none of its fields. */
  lemma FieldsAfterSpaces(sp: string, s: string)
    requires AllSpace(sp)
    ensures Fields(sp + s) == Fields(s)
  {
    SpacePrefixAfterSpaces(sp, s);
    assert (sp + s)[|sp| + SpacePrefix(s)..] == s[SpacePrefix(s)..];
  }

  /** `Fields` gives back the words of a well-spaced string, whatever white space
      surrounds and separates them. */
  lemma {:induction false} FieldsOfSpaced(lead: string, words: seq<string>, seps: seq<string>)
    requires WellSpaced(lead, words, seps)
    ensures Fields(Spaced(lead, words, seps)) == words
    decreases |words|
  {
    if words == [] {
      FieldsAfterSpaces(lead, []);
      assert lead + [] == lead;
    } else {
      var rest := SpacedTail(lead, words, seps);
      FieldsAfterSpaces(lead, words[0] + rest);
      FieldsOfWordThen(words[0], rest);
      FieldsOfSpaced(seps[0], words[1..], seps[1..]);
    }
  }

  /** A non-empty well-spaced string is its lead, its first word, and a well-spaced rest
      that is empty or starts with white space. */
  lemma SpacedTail(lead: string, words: seq<string>, seps: seq<string>) returns (rest: string)
    requires WellSpaced(lead, words, seps) && words != []
    ensures rest == Spaced(seps[0], words[1..], seps[1..])
    ensures Spaced(lead, words, seps) == lead + (words[0] + rest)
    ensures WellSpaced(seps[0], words[1..], seps[1..])
    ensures rest == [] || IsSpace(rest[0])
  {
    rest := Spaced(seps[0], words[1..], seps[1..]);
    forall i | 0 <= i < |words[1..]|
      ensures words[1..][i] == words[i + 1] && seps[1..][i] == seps[i + 1]
    {
    }
    if seps[0] == [] {
      assert |words| == 1 && rest == [];
    } else {
      assert rest[0] == seps[0][0];
    }
  }

  /** One round of `Fields`: the leading white space, the first word, and the rest, which
      is empty or starts with white space. */
  lemma FieldsStep(s: string) returns (lead: string, w: string, rest: string)
    requires s[SpacePrefix(s)..] != []
    ensures s == lead + w + rest && Fields(s) == [w] + Fields(rest)
    ensures AllSpace(lead) && w != [] && NoSpace(w) && (rest == [] || IsSpace(rest[0]))
  {
    var k := SpacePrefix(s);
    var t := s[k..];
    var n := WordPrefix(t);
    lead, w, rest := s[..k], t[..n], t[n..];
    assert s == lead + w + rest;
  }

  /** Every string is its fields with white space around and between them: `Fields`
      drops nothing but white space, and keeps the words in order. */
  lemma {:induction false} SpacedOfFields(s: string) returns (lead: string, seps: seq<string>)
    ensures WellSpaced(lead, Fields(s), seps) && Spaced(lead, Fields(s), seps) == s
    decreases |s|
  {
    if s[SpacePrefix(s)..] == [] {
      lead, seps := s, [];
      assert s == s[..SpacePrefix(s)];
    } else {
      var w, rest;
      lead, w, rest := FieldsStep(s);
      var lead', seps' := SpacedOfFields(rest);
      if Fields(rest) != [] {
        SpacedLeadFirst(lead', Fields(rest), seps', rest);
      }
      SpacedCons(lead, w, lead', Fields(rest), seps');
      seps := [lead'] + seps';
    }
  }

  /** One more word in front of a well-spaced string. */
  lemma SpacedCons(lead: string, w: string, lead': string, words: seq<string>, seps: seq<string>)
    requires AllSpace(lead) && w != [] && NoSpace(w)
    requires WellSpaced(lead', words, seps) && (words != [] ==> lead' != [])
    ensures WellSpaced(lead, [w] + words, [lead'] + seps)
    ensures Spaced(lead, [w] + words, [lead'] + seps) == lead + w + Spaced(lead', words, seps)
  {
    var ws, ss := [w] + words, [lead'] + seps;
    assert ws[1..] == words && ss[1..] == seps;
    forall i | 0 <= i < |ws|
      ensures ws[i] != [] && NoSpace(ws[i]) && AllSpace(ss[i]) && (i + 1 < |ws| ==> ss[i] != [])
    {
      if i > 0 {
        assert ws[i] == words[i - 1] && ss[i] == seps[i - 1];
      }
    }
  }

  /** A well-spaced string that starts with white space has a non-empty lead. */
  lemma SpacedLeadFirst(lead: string, words: seq<string>, seps: seq<string>, s: string)
    requires WellSpaced(lead, words, seps) && Spaced(lead, words, seps) == s
    requires words != [] && s != [] && IsSpace(s[0])
    ensures lead != []
  {
  }

  // ---------------------------------------------------------------------------
  // strings.Split, strings.TrimSpace, strings.HasPrefix, strings.SplitN

  /** Parts joined back with `sep` between them: the inverse of `Split`. */
  function Join(parts: seq<string>, sep: char): string {
    if parts == [] then []
    else if |parts| == 1 then parts[0]
    else parts[0] + [sep] + Join(parts[1..], sep)
  }

  /** Go's `strings.Split(s, sep)` for a one-character separator: at least one part, none
      containing `sep`, and joining the parts gives `s` back (so `Split("", sep) == [""]`). */
  function Split(s: string, sep: char): (parts: seq<string>)
    ensures |parts| >= 1
    ensures forall i :: 0 <= i < |parts| ==> sep !in parts[i]
    ensures Join(parts, sep) == s
  {
    if s == [] then [[]]
    else
      var rest := Split(s[1..], sep);
      if s[0] == sep then
        assert ([[]] + rest)[1..] == rest;
        [[]] + rest
      else
        var parts := [[s[0]] + rest[0]] + rest[1..];
        assert |rest| > 1 ==> parts[1..] == rest[1..];
        assert s == [s[0]] + s[1..];
        parts
  }

  /** `s` without its leading white space. */
  function TrimLeft(s: string): (r: string)
    ensures |r| <= |s| && r == s[|s| - |r|..]
    ensures forall i :: 0 <= i < |s| - |r| ==> IsSpace(s[i])
    ensures r == [] || !IsSpace(r[0])
  {
    if s != [] && IsSpace(s[0]) then TrimLeft(s[1..]) else s
  }

  /** `s` without its trailing white space. */
  function TrimRight(s: string): (r: string)
    ensures |r| <= |s| && r == s[..|r|]
    ensures forall i :: |r| <= i < |s| ==> IsSpace(s[i])
    ensures r == [] || !IsSpace(r[|r| - 1])
  {
    if s != [] && IsSpace(s[|s| - 1]) then TrimRight(s[..|s| - 1]) else s
  }

  /** Go's `strings.TrimSpace`. */
  function TrimSpace(s: string): (r: string)
    ensures r == [] || (!IsSpace(r[0]) && !IsSpace(r[|r| - 1]))
  {
    TrimRight(TrimLeft(s))
  }

  /** Trimming the left end drops exactly the leading white space that `SpacePrefix` counts. */
  lemma {:induction false} TrimLeftDropsSpacePrefix(s: string)
    ensures TrimLeft(s) == s[SpacePrefix(s)..]
  {
    if s != [] && IsSpace(s[0]) {
      TrimLeftDropsSpacePrefix(s[1..]);
      assert s[1..][SpacePrefix(s[1..])..] == s[SpacePrefix(s)..];
    }
  }

  /** `TrimSpace(s)` is the slice of `s` left once its leading white space (`SpacePrefix(s)`
      characters) and its trailing white space are dropped: nothing else is removed. */
  lemma TrimSpaceSlice(s: string)
    ensures SpacePrefix(s) + |TrimSpace(s)| <= |s|
    ensures TrimSpace(s) == s[SpacePrefix(s)..SpacePrefix(s) + |TrimSpace(s)|]
    ensures forall i :: SpacePrefix(s) + |TrimSpace(s)| <= i < |s| ==> IsSpace(s[i])
  {
    var k := SpacePrefix(s);
    var l := TrimLeft(s);
    TrimLeftDropsSpacePrefix(s);
    TrimmedTail(s, k, l);
  }

  lemma TrimmedTail(s: string, k: nat, l: string)
    requires k <= |s| && l == s[k..]
    ensures |TrimRight(l)| <= |l|
    ensures TrimRight(l) == s[k..k + |TrimRight(l)|]
    ensures forall i :: k + |TrimRight(l)| <= i < |s| ==> IsSpace(s[i])
  {
    var n := |TrimRight(l)|;
    assert l[..n] == s[k..k + n];
    forall i | k + n <= i < |s| ensures IsSpace(s[i]) {
      assert s[i] == l[i - k];
    }
  }

  /** Go's `strings.HasPrefix`. */
  predicate HasPrefix(s: string, prefix: string) {
    |prefix| <= |s| && s[..|prefix|] == prefix
  }

  /** The position of the first `c` in `s`; `strings.SplitN(s, string(c), 2)` is
      `[s[..i], s[i + 1..]]` for this `i`. */
  function IndexOf(s: string, c: char): (i: nat)
    requires c in s
    ensures i < |s| && s[i] == c && c !in s[..i]
  {
    if s[0] == c then 0 else 1 + IndexOf(s[1..], c)
  }

  /** `IndexOf` finds the first occurrence. */
  lemma {:induction false} IndexOfAt(s: string, c: char, i: nat)
    requires i < |s| && s[i] == c && c !in s[..i]
    ensures IndexOf(s, c) == i
  {
    if i > 0 {
      assert s[0] == s[..i][0];
      assert s[1..][..i - 1] == s[..i][1..];
      IndexOfAt(s[1..], c, i - 1);
    }
  }

  // ---------------------------------------------------------------------------
  // strconv.Atoi

  const MinInt64: int := -0x8000_0000_0000_0000
  const MaxInt64: int := 0x7FFF_FFFF_FFFF_FFFF

  predicate IsDigit(c: char) { '0' <= c <= '9' }

  predicate AllDigits(s: string) {
    forall i :: 0 <= i < |s| ==> IsDigit(s[i])
  }

  /** The value of a string of decimal digits. */
  function DigitsValue(s: string): (v: nat)
    requires AllDigits(s)
  {
    if s == [] then 0
    else DigitsValue(s[..|s| - 1]) * 10 + (s[|s| - 1] as int - '0' as int)
  }

  predicate HasSign(s: string) {
    s != [] && (s[0] == '-' || s[0] == '+')
  }

  /** `s` without its sign, if it has one. */
  function Unsigned(s: string): string {
    if HasSign(s) then s[1..] else s
  }

  /** Go's `strconv.Atoi` on a 64-bit platform: an optional `+` or `-` followed by at
      least one ASCII digit, whose value fits in an int64; anything else is an error. */
  function Atoi(s: string): (r: Option<int>)
    ensures r.Some? ==> MinInt64 <= r.value <= MaxInt64
  {
    if s == [] then None
    else
      var digits := if s[0] == '-' || s[0] == '+' then s[1..] else s;
      if digits == [] || !AllDigits(digits) then None
      else
        var v: int := if s[0] == '-' then -(DigitsValue(digits) as int) else DigitsValue(digits);
        if MinInt64 <= v <= MaxInt64 then Some(v) else None
  }

  /** What `Atoi` reads: a number is returned exactly when the text after the optional sign
      is one or more digits whose signed value fits in an int64, and it is that value. */
  lemma AtoiValue(s: string)
    ensures Atoi(s).Some? ==>
      Unsigned(s) != [] && AllDigits(Unsigned(s)) &&
      Atoi(s).value == if HasSign(s) && s[0] == '-' then -(DigitsValue(Unsigned(s)) as int) else DigitsValue(Unsigned(s))
    ensures Atoi(s).None? ==>
      || Unsigned(s) == [] || !AllDigits(Unsigned(s))
      || (HasSign(s) && s[0] == '-' && DigitsValue(Unsigned(s)) > -MinInt64)
      || (!(HasSign(s) && s[0] == '-') && DigitsValue(Unsigned(s)) > MaxInt64)
  {
  }

  /** A character other than a digit or a sign makes `Atoi` fail, wherever it stands. */
  lemma AtoiRejectsChar(s: string, i: nat)
    requires i < |s| && !IsDigit(s[i]) && s[i] != '+' && s[i] != '-'
    ensures Atoi(s).None?
  {
    if s[0] == '-' || s[0] == '+' {
      assert s[1..][i - 1] == s[i];
    }
  }

  /** Go's `strconv.Itoa` for non-negative numbers. */
  function Decimal(n: nat): (s: string)
    ensures s != [] && AllDigits(s)
  {
    if n < 10 then [('0' as int + n) as char]
    else Decimal(n / 10) + [('0' as int + n % 10) as char]
  }

  lemma {:induction false} DigitsValueOfDecimal(n: nat)
    ensures DigitsValue(Decimal(n)) == n
  {
    if n >= 10 {
      var s := Decimal(n);
      assert s[..|s| - 1] == Decimal(n / 10);
      DigitsValueOfDecimal(n / 10);
    }
  }

  /** `Atoi` reads back every int64 written in decimal, with a leading `-` when negative. */
  lemma AtoiOfDecimal(n: int)
    requires MinInt64 <= n <= MaxInt64
    ensures n >= 0 ==> Atoi(Decimal(n)) == Some(n)
    ensures n < 0 ==> Atoi("-" + Decimal(-n)) == Some(n)
  {
    if n >= 0 {
      DigitsValueOfDecimal(n);
    } else {
      DigitsValueOfDecimal(-n);
      assert ("-" + Decimal(-n))[1..] == Decimal(-n);
    }
  }
}
