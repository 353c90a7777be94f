// One field of a cron expression (`*`, `*/N`, `N`, `lo-hi`, and comma lists of
// these) read into the set of values it allows, or rejected as a whole.
module CronField {
  import opened Wrappers
  import opened GoStrings
  import opened Arith

  /** The integers `lo..hi`, both included. */
  function Range(lo: int, hi: int): set<int>
    decreases hi - lo
  {
    if lo > hi then {} else {lo} + Range(lo + 1, hi)
  }

  /** The values that `for i := from; i <= hi; i += step` visits. */
  function Steps(from: int, hi: int, step: int): set<int>
    requires step > 0
    decreases hi - from
  {
    if from > hi then {} else {from} + Steps(from + step, hi, step)
  }

  // The values one comma-separated part allows, or `None` when the part is malformed.
  // `*` and `*/N` cover `lo..hi`; single values and ranges are taken as written.
  function PartValues(part: string, lo: int, hi: int): Option<set<int>> {
    var p := TrimSpace(part);
    if HasPrefix(p, "*/") then
      match Atoi(p[2..])
      case None => None
      case Some(step) => if step <= 0 then None else Some(Steps(lo, hi, step))
    else if p == "*" then Some(Range(lo, hi))
    else if '-' in p then
      var i := IndexOf(p, '-');
      match (Atoi(p[..i]), Atoi(p[i + 1..]))
      case (Some(a), Some(b)) => if a > b then None else Some(Range(a, b))
      case _ => None
    else
      match Atoi(p)
      case None => None
      case Some(v) => Some({v})
  }

  /** What each comma-separated part of a field allows, in order. */
  function PartsValues(parts: seq<string>, lo: int, hi: int): seq<Option<set<int>>> {
    seq(|parts|, k requires 0 <= k < |parts| => PartValues(parts[k], lo, hi))
  }

  /** The union of the parts' values, or `None` as soon as one part is malformed. */
  function Union(vals: seq<Option<set<int>>>): Option<set<int>> {
    if vals == [] then Some({})
    else
      match Union(vals[..|vals| - 1])
      case None => None
      case Some(acc) =>
        match vals[|vals| - 1]
        case None => None
        case Some(vs) => Some(acc + vs)
  }

  /** What each comma-separated part of `field` allows, in order. */
  function FieldParts(field: string, lo: int, hi: int): seq<Option<set<int>>> {
    PartsValues(Split(field, ','), lo, hi)
  }

  /** The values field `field` allows with bounds `lo..hi`, or `None` when the field is
      invalid: any malformed part, or an empty union. */
  function FieldValues(field: string, lo: int, hi: int): Option<set<int>> {
    match Union(FieldParts(field, lo, hi))
    case None => None
    case Some(vs) => if vs == {} then None else Some(vs)
  }

  lemma UnionSnoc(vals: seq<Option<set<int>>>, k: nat)
    requires k < |vals|
    ensures Union(vals[..k + 1]) == (match Union(vals[..k])
                                     case None => None
                                     case Some(acc) =>
                                       match vals[k]
                                       case None => None
                                       case Some(vs) => Some(acc + vs))
  {
    assert vals[..k + 1][..k] == vals[..k];
  }

  /** A field without commas is its single part, rejected when it allows nothing. */
  lemma OnePartField(s: string, lo: int, hi: int)
    requires ',' !in s
    ensures FieldValues(s, lo, hi) == (match PartValues(s, lo, hi)
                                       case None => None
                                       case Some(vs) => if vs == {} then None else Some(vs))
  {
    SplitWithoutSeparator(s, ',');
    var vals := PartsValues([s], lo, hi);
    assert vals == [PartValues(s, lo, hi)];
    assert vals[..0] == [];
    UnionSnoc(vals, 0);
    assert vals[..1] == vals;
    assert Union(vals) == (match PartValues(s, lo, hi)
                           case None => None
                           case Some(vs) => Some({} + vs));
    assert forall vs: set<int> :: {} + vs == vs;
  }

  lemma {:induction false} UnionNoneExtends(vals: seq<Option<set<int>>>, n: nat)
    requires n <= |vals| && Union(vals[..n]).None?
    ensures Union(vals).None?
    decreases |vals| - n
  {
    if n < |vals| {
      assert vals[..n + 1][..n] == vals[..n];
      UnionNoneExtends(vals, n + 1);
    } else {
      assert vals[..n] == vals;
    }
  }

  /** Go's `parseCronField`: walks the comma-separated parts, adding each part's values
      to the result, and gives up on the first bad part or on an empty result. */
  method ParseCronField(field: string, lo: int, hi: int) returns (r: Option<set<int>>)
    ensures r == FieldValues(field, lo, hi)
  {
    var result: set<int> := {};
    var parts := Split(field, ',');
    ghost var vals := FieldParts(field, lo, hi);
    var k := 0;
    while k < |parts|
      invariant 0 <= k <= |parts|
      invariant Union(vals[..k]) == Some(result)
    {
      UnionSnoc(vals, k);
      var added := AddPart(parts, k, lo, hi, result);
      if added.None? {
        UnionNoneExtends(vals, k + 1);
        FieldFromUnion(field, lo, hi);
        return None;
      }
      result := added.value;
      k := k + 1;
    }
    assert vals[..k] == vals;
    FieldFromUnion(field, lo, hi);
    if result == {} {
      return None;
    }
    return Some(result);
  }

  /** A field's values are the union of its parts, unless that union is empty. */
  lemma FieldFromUnion(field: string, lo: int, hi: int)
    ensures Union(FieldParts(field, lo, hi)).None? ==> FieldValues(field, lo, hi).None?
    ensures Union(FieldParts(field, lo, hi)) == Some({}) ==> FieldValues(field, lo, hi).None?
    ensures Union(FieldParts(field, lo, hi)).Some? && Union(FieldParts(field, lo, hi)).value != {} ==>
      FieldValues(field, lo, hi) == Union(FieldParts(field, lo, hi))
  {
  }

  /** One iteration of `parseCronField`'s loop over the parts: adds the values of part
      `parts[k]` to `result`, or reports the part malformed. */
  method AddPart(parts: seq<string>, k: nat, lo: int, hi: int, result: set<int>) returns (r: Option<set<int>>)
    requires k < |parts|
    ensures r == (match PartsValues(parts, lo, hi)[k]
                  case None => None
                  case Some(vs) => Some(result + vs))
  {
    assert PartsValues(parts, lo, hi)[k] == PartValues(parts[k], lo, hi);
    var p := TrimSpace(parts[k]);
    if HasPrefix(p, "*/") {
      var step := Atoi(p[2..]);
      if step.None? || step.value <= 0 {
        return None;
      }
      var acc := AddSteps(result, lo, hi, step.value);
      return Some(acc);
    } else if p == "*" {
      var acc := AddRange(result, lo, hi);
      return Some(acc);
    } else if '-' in p {
      var dash := IndexOf(p, '-');
      var a := Atoi(p[..dash]);
      var b := Atoi(p[dash + 1..]);
      if a.None? || b.None? || a.value > b.value {
        return None;
      }
      var acc := AddRange(result, a.value, b.value);
      return Some(acc);
    } else {
      var v := Atoi(p);
      if v.None? {
        return None;
      }
      return Some(result + {v.value});
    }
  }

  // The loop `for i := lo; i <= hi; i += step { result[i] = true }` of a `*/N` part.
  method AddSteps(result: set<int>, lo: int, hi: int, step: int) returns (acc: set<int>)
    requires step > 0
    ensures acc == result + Steps(lo, hi, step)
  {
    acc := result;
    var i := lo;
    while i <= hi
      invariant acc + Steps(i, hi, step) == result + Steps(lo, hi, step)
      decreases hi - i
    {
      acc := acc + {i};
      i := i + step;
    }
  }

  /** The loop `for i := lo; i <= hi; i++ { result[i] = true }` of a `*` or `lo-hi` part. */
  method AddRange(result: set<int>, lo: int, hi: int) returns (acc: set<int>)
    ensures acc == result + Range(lo, hi)
  {
    acc := result;
    var i := lo;
    while i <= hi
      invariant acc + Range(i, hi) == result + Range(lo, hi)
      decreases hi - i
    {
      acc := acc + {i};
      i := i + 1;
    }
  }

  // ---------------------------------------------------------------------------
  // What a field means

  lemma {:induction false} RangeMembers(lo: int, hi: int, x: int)
    ensures x in Range(lo, hi) <==> lo <= x <= hi
    decreases hi - lo
  {
    if lo <= hi {
      RangeMembers(lo + 1, hi, x);
    }
  }

  // `*/N` reaches exactly the values `lo, lo + N, lo + 2N, ...` that do not exceed `hi`.
  lemma {:induction false} StepsMembers(from: int, hi: int, step: int, x: int)
    requires step > 0
    ensures x in Steps(from, hi, step) <==> from <= x <= hi && (x - from) % step == 0
    decreases hi - from
  {
    if from <= hi {
      StepsMembers(from + step, hi, step, x);
      if x > from {
        SubtractStep(x - from, step);
      }
    }
  }

  lemma SubtractStep(a: int, step: int)
    requires step > 0 && a > 0
    ensures a % step == 0 <==> a >= step && (a - step) % step == 0
  {
    var q, r := a / step, a % step;
    assert a == q * step + r && 0 <= r < step;
    assert a - step == (q - 1) * step + r;
    DivModUnique(a - step, step, q - 1, r);
    if a < step {
      DivModUnique(a, step, 0, a);
    }
  }

  /** The union is defined exactly when every part is well formed. */
  lemma {:induction false} UnionDefined(vals: seq<Option<set<int>>>)
    ensures Union(vals).Some? <==> forall k :: 0 <= k < |vals| ==> vals[k].Some?
    decreases |vals|
  {
    if vals != [] {
      var init := vals[..|vals| - 1];
      UnionDefined(init);
      assert forall k :: 0 <= k < |init| ==> init[k] == vals[k];
    }
  }

  /** A value is in a defined union exactly when some part allows it. */
  lemma {:induction false} UnionMembers(vals: seq<Option<set<int>>>, x: int)
    requires Union(vals).Some?
    ensures x in Union(vals).value <==> exists k :: 0 <= k < |vals| && vals[k].Some? && x in vals[k].value
    decreases |vals|
  {
    if vals != [] {
      var n := |vals| - 1;
      var init := vals[..n];
      UnionMembers(init, x);
      assert forall k :: 0 <= k < n ==> init[k] == vals[k];
    }
  }

  /** A value some part allows is in the union. */
  lemma UnionHas(vals: seq<Option<set<int>>>, k: nat, x: int)
    requires k < |vals| && Union(vals).Some? && vals[k].Some? && x in vals[k].value
    ensures x in Union(vals).value
  {
    UnionMembers(vals, x);
  }

  /** Every well-formed part allows some value once `lo <= hi`. */
  lemma PartWitness(part: string, lo: int, hi: int) returns (x: int)
    requires lo <= hi && PartValues(part, lo, hi).Some?
    ensures x in PartValues(part, lo, hi).value
  {
    var p := TrimSpace(part);
    if HasPrefix(p, "*/") || p == "*" {
      x := WildcardWitness(part, lo, hi);
    } else if '-' in p {
      x := RangeWitness(part, lo, hi);
    } else {
      x := Atoi(p).value;
    }
  }

  lemma WildcardWitness(part: string, lo: int, hi: int) returns (x: int)
    requires lo <= hi && PartValues(part, lo, hi).Some?
    requires HasPrefix(TrimSpace(part), "*/") || TrimSpace(part) == "*"
    ensures x in PartValues(part, lo, hi).value
  {
    x := lo;
    var p := TrimSpace(part);
    if HasPrefix(p, "*/") {
      assert x in Steps(lo, hi, Atoi(p[2..]).value);
    } else {
      assert x in Range(lo, hi);
    }
  }

  lemma RangeWitness(part: string, lo: int, hi: int) returns (x: int)
    requires PartValues(part, lo, hi).Some?
    requires var p := TrimSpace(part); !HasPrefix(p, "*/") && p != "*" && '-' in p
    ensures x in PartValues(part, lo, hi).value
  {
    var p := TrimSpace(part);
    var i := IndexOf(p, '-');
    var a, b := Atoi(p[..i]), Atoi(p[i + 1..]);
    assert a.Some? && b.Some? && a.value <= b.value;
    assert PartValues(part, lo, hi) == Some(Range(a.value, b.value));
    x := a.value;
    assert x in Range(x, b.value);
  }

  /** A field is valid exactly when every comma-separated part is: one malformed part
      spoils the whole list, and (once `lo <= hi`) the check for an empty result never
      rejects a field. */
  lemma FieldDefined(field: string, lo: int, hi: int)
    requires lo <= hi
    ensures FieldValues(field, lo, hi).Some? <==>
      forall k :: 0 <= k < |FieldParts(field, lo, hi)| ==> FieldParts(field, lo, hi)[k].Some?
  {
    UnionDefined(FieldParts(field, lo, hi));
    UnionOfPartsNonEmpty(Split(field, ','), lo, hi);
  }

  lemma UnionOfPartsNonEmpty(parts: seq<string>, lo: int, hi: int)
    requires lo <= hi && |parts| >= 1
    ensures Union(PartsValues(parts, lo, hi)).Some? ==> Union(PartsValues(parts, lo, hi)).value != {}
  {
    var vals := PartsValues(parts, lo, hi);
    if Union(vals).Some? {
      UnionDefined(vals);
      assert vals[0] == PartValues(parts[0], lo, hi);
      var w := PartWitness(parts[0], lo, hi);
      UnionHas(vals, 0, w);
    }
  }

  /** A valid field allows exactly the values some comma-separated part allows. */
  lemma FieldMembers(field: string, lo: int, hi: int, x: int)
    requires FieldValues(field, lo, hi).Some?
    ensures x in FieldValues(field, lo, hi).value <==>
      exists k :: 0 <= k < |FieldParts(field, lo, hi)| && FieldParts(field, lo, hi)[k].Some? &&
        x in FieldParts(field, lo, hi)[k].value
  {
    UnionMembers(FieldParts(field, lo, hi), x);
  }

  lemma SplitWithoutSeparator(s: string, sep: char)
    requires sep !in s
    ensures Split(s, sep) == [s]
  {
    if s != [] {
      SplitWithoutSeparator(s[1..], sep);
    }
  }

  lemma {:induction false} NoSpaceTrimmed(s: string)
    requires NoSpace(s)
    ensures TrimSpace(s) == s
  {
    assert |s| > 0 ==> !IsSpace(s[0]) && !IsSpace(s[|s| - 1]);
    assert TrimLeft(s) == s;
  }

  lemma DecimalHasNoSpace(n: nat)
    ensures NoSpace(Decimal(n)) && ',' !in Decimal(n) && '-' !in Decimal(n) && '*' !in Decimal(n)
  {
    var s := Decimal(n);
    assert forall i :: 0 <= i < |s| ==> IsDigit(s[i]);
  }

  /** A range with a second `-` is rejected: `SplitN` splits at the first `-`, and the
      high bound `b-c` is not a number. */
  lemma DoubleRangeRejected(a: string, b: string, c: string, lo: int, hi: int)
    requires a != [] && b != [] && AllDigits(a) && AllDigits(b) && AllDigits(c)
    ensures PartValues(a + "-" + b + "-" + c, lo, hi).None?
  {
    DoubleRangeText(a, b, c);
    HighNotNumberRejected(a + "-" + b + "-" + c, lo, hi);
  }

  // The text `a-b-c`: no white space, not a step or a star, and what follows its first
  // `-` is not a number.
  lemma DoubleRangeText(a: string, b: string, c: string)
    requires a != [] && b != [] && AllDigits(a) && AllDigits(b) && AllDigits(c)
    ensures var s := a + "-" + b + "-" + c;
      NoSpace(s) && !HasPrefix(s, "*/") && s != "*" && '-' in s && Atoi(s[IndexOf(s, '-') + 1..]).None?
  {
    InnerDashText(b, c);
    DashText(a, b + "-" + c);
    DashAssoc(a, b, c);
  }

  lemma DashAssoc(a: string, b: string, c: string)
    ensures a + "-" + b + "-" + c == a + "-" + (b + "-" + c)
  {
  }

  // A range part whose text after the first `-` is not a number is rejected.
  lemma HighNotNumberRejected(p: string, lo: int, hi: int)
    requires NoSpace(p) && !HasPrefix(p, "*/") && p != "*" && '-' in p
    requires Atoi(p[IndexOf(p, '-') + 1..]).None?
    ensures PartValues(p, lo, hi).None?
  {
    NoSpaceTrimmed(p);
  }

  // `b-c` for digits `b` (at least one) and `c`: no white space, and not a number.
  lemma InnerDashText(b: string, c: string)
    requires b != [] && AllDigits(b) && AllDigits(c)
    ensures NoSpace(b + "-" + c) && Atoi(b + "-" + c).None?
  {
    var r := b + "-" + c;
    forall i | 0 <= i < |r| ensures !IsSpace(r[i]) {
      if i < |b| {
        assert r[i] == b[i];
      } else if i > |b| {
        assert r[i] == c[i - |b| - 1];
      }
    }
    assert r[0] == b[0] && r[|b|] == '-';
  }

  // The text `a-rest` for digits `a` and `rest` without white space: no white space, not a
  // step or a star, and its first `-` stands right after `a`.
  lemma DashText(a: string, rest: string)
    requires a != [] && AllDigits(a) && NoSpace(rest)
    ensures var s := a + "-" + rest;
      NoSpace(s) && !HasPrefix(s, "*/") && s != "*" && '-' in s &&
      IndexOf(s, '-') == |a| && s[..|a|] == a && s[|a| + 1..] == rest
  {
    var s := a + "-" + rest;
    forall i | 0 <= i < |s| ensures !IsSpace(s[i]) {
      if i < |a| {
        assert s[i] == a[i];
      } else if i > |a| {
        assert s[i] == rest[i - |a| - 1];
      }
    }
    assert s[0] == a[0] && s[|a|] == '-';
    assert s[..|a|] == a && s[|a| + 1..] == rest;
    assert '-' !in s[..|a|];
    IndexOfAt(s, '-', |a|);
  }

  /** The text of a range part `a-b`: no white space, no comma, not a step or a star, and
      `SplitN(part, "-", 2)` gives back `a` and `b`. */
  lemma RangeText(a: string, b: string)
    requires a != [] && AllDigits(a) && AllDigits(b)
    ensures var s := a + "-" + b;
      NoSpace(s) && ',' !in s && !HasPrefix(s, "*/") && s != "*" && '-' in s &&
      IndexOf(s, '-') == |a| && s[..|a|] == a && s[|a| + 1..] == b
  {
    var s := a + "-" + b;
    forall i | 0 <= i < |s|
      ensures !IsSpace(s[i]) && s[i] != ',' && (i != |a| ==> IsDigit(s[i]))
    {
      if i < |a| {
        assert s[i] == a[i];
      } else if i > |a| {
        assert s[i] == b[i - |a| - 1];
      }
    }
    assert IsDigit(s[0]) && s[|a|] == '-';
    assert s[..|a|] == a && s[|a| + 1..] == b;
    assert '-' !in s[..|a|];
    IndexOfAt(s, '-', |a|);
  }

  /** A range `a-b` of two non-negative int64 values allows exactly `a..b`, however far
      outside `lo..hi` they lie, and is rejected when `a > b`. */
  lemma RangePart(a: nat, b: nat, lo: int, hi: int)
    requires a <= MaxInt64 && b <= MaxInt64
    ensures ',' !in Decimal(a) + "-" + Decimal(b)
    ensures PartValues(Decimal(a) + "-" + Decimal(b), lo, hi) == if a <= b then Some(Range(a, b)) else None
  {
    var s := Decimal(a) + "-" + Decimal(b);
    RangeText(Decimal(a), Decimal(b));
    NoSpaceTrimmed(s);
    AtoiOfDecimal(a);
    AtoiOfDecimal(b);
  }

  /** The field `a-b` allows exactly the integers from `a` to `b` when `a <= b`, and is
      invalid when `a > b`. */
  lemma RangeField(a: nat, b: nat, lo: int, hi: int)
    requires a <= MaxInt64 && b <= MaxInt64
    ensures FieldValues(Decimal(a) + "-" + Decimal(b), lo, hi).Some? <==> a <= b
    ensures a <= b ==> forall x :: x in FieldValues(Decimal(a) + "-" + Decimal(b), lo, hi).value <==> a <= x <= b
  {
    RangePart(a, b, lo, hi);
    OnePartField(Decimal(a) + "-" + Decimal(b), lo, hi);
    if a <= b {
      assert a in Range(a, b) by { RangeMembers(a, b, a); }
      forall x ensures x in Range(a, b) <==> a <= x <= b {
        RangeMembers(a, b, x);
      }
    }
  }

  /** A range whose bounds are reversed is rejected. */
  lemma ReversedRangeRejected(a: nat, b: nat, lo: int, hi: int)
    requires b < a <= MaxInt64
    ensures PartValues(Decimal(a) + "-" + Decimal(b), lo, hi).None?
  {
    RangePart(a, b, lo, hi);
  }

  // The text of a step part `*/d`, for `d` without white space.
  lemma StepTextOf(d: string)
    requires NoSpace(d)
    ensures var s := "*/" + d;
      NoSpace(s) && HasPrefix(s, "*/") && s[2..] == d
  {
    var s := "*/" + d;
    forall i | 0 <= i < |s| ensures !IsSpace(s[i]) {
      if i >= 2 {
        assert s[i] == d[i - 2];
      }
    }
    assert s[..2] == "*/" && s[2..] == d;
  }

  /** A step that is not a number, or is not positive, is rejected. */
  lemma NonNumericStepRejected(d: string, lo: int, hi: int)
    requires NoSpace(d) && (Atoi(d).None? || Atoi(d).value <= 0)
    ensures PartValues("*/" + d, lo, hi).None?
  {
    StepTextOf(d);
    NoSpaceTrimmed("*/" + d);
  }

  /** A step of zero is rejected. */
  lemma ZeroStepRejected(lo: int, hi: int)
    ensures PartValues("*/0", lo, hi).None?
  {
    var p := "*/0";
    assert NoSpace(p) by {
      forall i | 0 <= i < |p| ensures !IsSpace(p[i]) { assert IsDigit(p[i]) || p[i] == '*' || p[i] == '/'; }
    }
    NoSpaceTrimmed(p);
    assert HasPrefix(p, "*/") && p[2..] == "0";
    assert DigitsValue("0") == 0;
  }

  /** A sign before digits: no white space, and the digits are what is left unsigned. */
  lemma NegatedText(d: string)
    requires AllDigits(d)
    ensures var m := "-" + d; NoSpace(m) && HasSign(m) && m[0] == '-' && Unsigned(m) == d
  {
    var m := "-" + d;
    forall i | 0 <= i < |m| ensures !IsSpace(m[i]) {
      if i > 0 {
        assert m[i] == d[i - 1];
      }
    }
    assert m[1..] == d;
  }

  // A negative step `*/-N` is rejected, whatever the digits `N` are.
  lemma NegativeStepRejected(d: string, lo: int, hi: int)
    requires AllDigits(d)
    ensures PartValues("*/-" + d, lo, hi).None?
  {
    var m := "-" + d;
    NegatedText(d);
    assert Atoi(m).None? || Atoi(m).value <= 0;
    assert "*/-" + d == "*/" + m;
    NonNumericStepRejected(m, lo, hi);
  }

  /** A part holding a character that is not white space, a digit, a sign, `*` or `/`
      is rejected: no branch of the parser accepts it. */
  lemma StrayCharacterRejected(part: string, i: nat, lo: int, hi: int)
    requires i < |part| && !IsSpace(part[i]) && !IsDigit(part[i])
    requires part[i] != '+' && part[i] != '-' && part[i] != '*' && part[i] != '/'
    ensures PartValues(part, lo, hi).None?
  {
    TrimSpaceSlice(part);
    var k := SpacePrefix(part);
    assert k <= i < k + |TrimSpace(part)|;
    assert TrimSpace(part)[i - k] == part[i];
    StrayTrimmedRejected(part, i - k, lo, hi);
  }

  // A stray character at `j` of the trimmed part `p` defeats every `Atoi` the parser
  // tries on `p`.
  lemma StrayDefeatsAtoi(p: string, j: nat)
    requires j < |p| && !IsDigit(p[j]) && p[j] != '+' && p[j] != '-' && p[j] != '*' && p[j] != '/'
    ensures p != "*" && Atoi(p).None?
    ensures HasPrefix(p, "*/") ==> Atoi(p[2..]).None?
    ensures '-' in p ==> Atoi(p[..IndexOf(p, '-')]).None? || Atoi(p[IndexOf(p, '-') + 1..]).None?
  {
    AtoiRejectsChar(p, j);
    if HasPrefix(p, "*/") {
      StrayInStep(p, j);
    }
    if '-' in p {
      StrayInRange(p, j);
    }
  }

  lemma StrayInStep(p: string, j: nat)
    requires j < |p| && !IsDigit(p[j]) && p[j] != '+' && p[j] != '-' && p[j] != '*' && p[j] != '/'
    requires HasPrefix(p, "*/")
    ensures Atoi(p[2..]).None?
  {
    assert j >= 2 && p[2..][j - 2] == p[j];
    AtoiRejectsChar(p[2..], j - 2);
  }

  lemma StrayInRange(p: string, j: nat)
    requires j < |p| && !IsDigit(p[j]) && p[j] != '+' && p[j] != '-'
    requires '-' in p
    ensures Atoi(p[..IndexOf(p, '-')]).None? || Atoi(p[IndexOf(p, '-') + 1..]).None?
  {
    var dash := IndexOf(p, '-');
    if j < dash {
      assert p[..dash][j] == p[j];
      AtoiRejectsChar(p[..dash], j);
    } else {
      assert j > dash && p[dash + 1..][j - dash - 1] == p[j];
      AtoiRejectsChar(p[dash + 1..], j - dash - 1);
    }
  }

  lemma StrayTrimmedRejected(part: string, j: nat, lo: int, hi: int)
    requires var p := TrimSpace(part);
      j < |p| && !IsDigit(p[j]) && p[j] != '+' && p[j] != '-' && p[j] != '*' && p[j] != '/'
    ensures PartValues(part, lo, hi).None?
  {
    StrayDefeatsAtoi(TrimSpace(part), j);
  }

  /** A single value is not clamped to `lo..hi`: `70` in the minute field is accepted. */
  lemma SingleValueUnclamped(n: nat, lo: int, hi: int)
    requires n <= MaxInt64
    ensures FieldValues(Decimal(n), lo, hi) == Some({n})
  {
    var s := Decimal(n);
    DecimalHasNoSpace(n);
    OnePartField(s, lo, hi);
    AtoiOfDecimal(n);
    NumberPart(s, lo, hi);
  }

  /** A part made of digits alone allows just its own value. */
  lemma NumberPart(s: string, lo: int, hi: int)
    requires s != [] && AllDigits(s) && Atoi(s).Some?
    ensures PartValues(s, lo, hi) == Some({Atoi(s).value})
  {
    assert NoSpace(s) by {
      forall i | 0 <= i < |s| ensures !IsSpace(s[i]) {
        assert IsDigit(s[i]);
      }
    }
    NoSpaceTrimmed(s);
    assert IsDigit(s[0]);
    assert !HasPrefix(s, "*/") by {
      assert |s| >= 2 ==> s[..2][0] == s[0];
    }
    assert s != "*";
    assert '-' !in s by {
      assert forall i :: 0 <= i < |s| ==> IsDigit(s[i]);
    }
  }

  lemma StepPart(n: nat, lo: int, hi: int)
    requires 0 < n <= MaxInt64
    ensures ',' !in "*/" + Decimal(n)
    ensures PartValues("*/" + Decimal(n), lo, hi) == Some(Steps(lo, hi, n))
  {
    var s := "*/" + Decimal(n);
    StepText(Decimal(n));
    NoSpaceTrimmed(s);
    AtoiOfDecimal(n);
  }

  lemma StepText(d: string)
    requires AllDigits(d)
    ensures var s := "*/" + d;
      NoSpace(s) && ',' !in s && HasPrefix(s, "*/") && s[2..] == d
  {
    var s := "*/" + d;
    forall i | 0 <= i < |s|
      ensures !IsSpace(s[i]) && s[i] != ','
    {
      if i >= 2 {
        assert s[i] == d[i - 2];
        assert IsDigit(d[i - 2]);
      }
    }
    assert s[..2] == "*/";
  }

  lemma StarPart(lo: int, hi: int)
    ensures PartValues("*", lo, hi) == Some(Range(lo, hi))
  {
    NoSpaceTrimmed("*");
    assert !HasPrefix("*", "*/");
  }

  // `*/N` with `N > 0` allows exactly `lo, lo + N, lo + 2N, ...` up to `hi`.
  lemma StepField(n: nat, lo: int, hi: int)
    requires 0 < n <= MaxInt64 && lo <= hi
    ensures FieldValues("*/" + Decimal(n), lo, hi).Some?
    ensures forall x :: x in FieldValues("*/" + Decimal(n), lo, hi).value <==>
      lo <= x <= hi && (x - lo) % n == 0
  {
    assert FieldValues("*/" + Decimal(n), lo, hi) == Some(Steps(lo, hi, n)) by {
      StepPart(n, lo, hi);
      assert lo in Steps(lo, hi, n);
      OnePartField("*/" + Decimal(n), lo, hi);
    }
    forall x ensures x in Steps(lo, hi, n) <==> lo <= x <= hi && (x - lo) % n == 0 {
      StepsMembers(lo, hi, n, x);
    }
  }

  /** `*` allows exactly `lo..hi`. */
  lemma StarField(lo: int, hi: int)
    requires lo <= hi
    ensures FieldValues("*", lo, hi).Some?
    ensures forall x :: x in FieldValues("*", lo, hi).value <==> lo <= x <= hi
  {
    StarPart(lo, hi);
    OnePartField("*", lo, hi);
    assert lo in Range(lo, hi);
    forall x ensures x in Range(lo, hi) <==> lo <= x <= hi {
      RangeMembers(lo, hi, x);
    }
  }
}
