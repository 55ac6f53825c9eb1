/**
 * Reading the bias specification file, the first part of `analyze`: the sensitive feature, the
 * one-hot encoded uncontroversial features, the number of their one-hot combinations, the bounds
 * of all these variables, and the custom encoded features with their initial ranges. The file is
 * given as its lines, without line terminators; every line is read as `readline().strip()`.
 */
module SpecFile {
  import opened Wrappers
  import opened Sequences
  import opened Expressions
  import opened OneHot
  import opened Chunks

  // ---------------------------------------------------------------- str.strip() and int()

  /** The characters Python's `str.isspace` accepts. */
  predicate IsSpace(c: char)
  {
    var n := c as int;
    || 0x09 <= n <= 0x0D || 0x1C <= n <= 0x20 || n == 0x85 || n == 0xA0 || n == 0x1680
    || 0x2000 <= n <= 0x200A || n == 0x2028 || n == 0x2029 || n == 0x202F || n == 0x205F
    || n == 0x3000
  }

  /** The number of leading whitespace characters. */
  function LeadingSpaces(s: string): (n: nat)
    ensures n <= |s|
  {
    if s != [] && IsSpace(s[0]) then 1 + LeadingSpaces(s[1..]) else 0
  }

  /** The number of trailing whitespace characters. */
  function TrailingSpaces(s: string): (n: nat)
    ensures n <= |s|
  {
    if s != [] && IsSpace(s[|s| - 1]) then 1 + TrailingSpaces(s[..|s| - 1]) else 0
  }

  /** `s.strip()`: `s` without its leading and trailing whitespace. */
  function Strip(s: string): (r: string)
    ensures |r| <= |s|
  {
    var rest := s[LeadingSpaces(s)..];
    rest[..|rest| - TrailingSpaces(rest)]
  }

  lemma {:induction false} LeadingSpacesSpec(s: string)
    ensures forall i :: 0 <= i < LeadingSpaces(s) ==> IsSpace(s[i])
    ensures LeadingSpaces(s) < |s| ==> !IsSpace(s[LeadingSpaces(s)])
  {
    if s != [] && IsSpace(s[0]) {
      LeadingSpacesSpec(s[1..]);
    }
  }

  lemma {:induction false} TrailingSpacesSpec(s: string)
    ensures forall i :: |s| - TrailingSpaces(s) <= i < |s| ==> IsSpace(s[i])
    ensures TrailingSpaces(s) < |s| ==> !IsSpace(s[|s| - 1 - TrailingSpaces(s)])
  {
    if s != [] && IsSpace(s[|s| - 1]) {
      TrailingSpacesSpec(s[..|s| - 1]);
    }
  }

  /**
   * `s.strip()` is the piece of `s` that starts at its first and ends at its last character
   * that is not whitespace; everything around it is whitespace.
   */
  lemma StripSpec(s: string)
    ensures var a, r := LeadingSpaces(s), Strip(s);
      && a + |r| <= |s| && s[a..a + |r|] == r
      && (forall i :: 0 <= i < a ==> IsSpace(s[i]))
      && (forall i :: a + |r| <= i < |s| ==> IsSpace(s[i]))
      && (r == [] || (!IsSpace(r[0]) && !IsSpace(r[|r| - 1])))
  {
    StripPiece(s);
    StripAround(s);
  }

  /** The stripped line is the slice of s after its leading whitespace. */
  lemma StripPiece(s: string)
    ensures var a, r := LeadingSpaces(s), Strip(s);
      a + |r| <= |s| && s[a..a + |r|] == r
  {
    var a := LeadingSpaces(s);
    var rest := s[a..];
    var n := |rest| - TrailingSpaces(rest);
    assert Strip(s) == rest[..n];
    assert s[a..] == rest;
  }

  /** What the stripped line leaves out is whitespace, and it neither starts nor ends with any. */
  lemma StripAround(s: string)
    ensures var a, r := LeadingSpaces(s), Strip(s);
      && (forall i :: 0 <= i < a ==> IsSpace(s[i]))
      && (forall i :: a + |r| <= i < |s| ==> IsSpace(s[i]))
      && (r == [] || (!IsSpace(r[0]) && !IsSpace(r[|r| - 1])))
  {
    LeadingSpacesSpec(s);
    StripTrailing(s);
    StripEnds(s);
  }

  lemma StripTrailing(s: string)
    ensures forall i :: LeadingSpaces(s) + |Strip(s)| <= i < |s| ==> IsSpace(s[i])
  {
    var a := LeadingSpaces(s);
    var rest := s[a..];
    var n := |rest| - TrailingSpaces(rest);
    assert |Strip(s)| == n;
    TrailingSpacesSpec(rest);
    forall i | a + n <= i < |s|
      ensures IsSpace(s[i])
    {
      assert s[i] == rest[i - a];
    }
  }

  lemma StripEnds(s: string)
    ensures var r := Strip(s);
      r == [] || (!IsSpace(r[0]) && !IsSpace(r[|r| - 1]))
  {
    var a := LeadingSpaces(s);
    var rest := s[a..];
    var n := |rest| - TrailingSpaces(rest);
    var r := Strip(s);
    assert r == rest[..n];
    if r != [] {
      LeadingSpacesSpec(s);
      TrailingSpacesSpec(rest);
      assert r[0] == rest[0] && r[|r| - 1] == rest[n - 1];
    }
  }

  predicate IsDigit(c: char) { '0' <= c <= '9' }

  /** Digits and single underscores between them, with no leading or trailing underscore. */
  predicate DigitBody(b: string)
  {
    |b| > 0 && IsDigit(b[0]) && DigitTail(b[1..])
  }

  /** What may follow a digit: more digits, each possibly preceded by one underscore. */
  predicate DigitTail(b: string)
  {
    if b == [] then true
    else if IsDigit(b[0]) then DigitTail(b[1..])
    else b[0] == '_' && |b| > 1 && IsDigit(b[1]) && DigitTail(b[2..])
  }

  /** The value of a string of decimal digits, underscores skipped. */
  function DigitsValue(ds: string): int
  {
    if ds == [] then 0
    else if ds[|ds| - 1] == '_' then DigitsValue(ds[..|ds| - 1])
    else 10 * DigitsValue(ds[..|ds| - 1]) + (ds[|ds| - 1] as int - '0' as int)
  }

  /**
   * `int(t)` for a stripped string t (Python 3.6 and later): an optional sign, then decimal digits
   * where single underscores may separate two digits.
   */
  function ParseInt(t: string): (r: Option<int>)
  {
    var negative := |t| > 0 && t[0] == '-';
    var body := if |t| > 0 && (t[0] == '-' || t[0] == '+') then t[1..] else t;
    if DigitBody(body) then
      var v := DigitsValue(body);
      Some(if negative then -v else v)
    else None
  }

  /** The decimal rendering of a natural number, as `str(n)` writes it. */
  function Decimal(n: nat): (s: string)
    ensures |s| > 0 && forall i :: 0 <= i < |s| ==> IsDigit(s[i])
  {
    if n < 10 then [('0' as int + n) as char] else Decimal(n / 10) + [('0' as int + n % 10) as char]
  }

  lemma {:induction false} AllDigitsTail(s: string)
    requires forall i :: 0 <= i < |s| ==> IsDigit(s[i])
    ensures DigitTail(s)
  {
    if s != [] {
      AllDigitsTail(s[1..]);
    }
  }

  lemma {:induction false} DecimalValue(n: nat)
    ensures DigitsValue(Decimal(n)) == n
  {
    if n >= 10 {
      DecimalValue(n / 10);
      assert Decimal(n)[..|Decimal(n)| - 1] == Decimal(n / 10);
    }
  }

  /** `int` reads back what `str` writes, for any integer (arity lines are written this way). */
  lemma ParseIntDecimal(n: int)
    ensures n >= 0 ==> ParseInt(Decimal(n)) == Some(n)
    ensures n < 0 ==> ParseInt("-" + Decimal(-n)) == Some(n)
  {
    var m: nat := if n >= 0 then n else -n;
    var d := Decimal(m);
    AllDigitsTail(d[1..]);
    DecimalValue(m);
    assert ("-" + d)[1..] == d;
  }

  // ---------------------------------------------------------------- the layout of the file

  /** Each line of the file as `readline().strip()` returns it. */
  function Stripped(lines: seq<string>): (text: seq<string>)
    ensures |text| == |lines|
  {
    seq(|lines|, i requires 0 <= i < |lines| => Strip(lines[i]))
  }

  /** `readline().strip()` at line k of the stripped text: "" once the file is exhausted. */
  function Line(text: seq<string>, k: nat): string
  {
    if k < |text| then text[k] else ""
  }

  /** `int(line)` for every stripped line of the file, computed once. */
  function Arities(text: seq<string>): (ar: seq<Option<int>>)
    ensures |ar| == |text| && forall k :: 0 <= k < |text| ==> ar[k] == ParseInt(text[k])
  {
    seq(|text|, k requires 0 <= k < |text| => ParseInt(text[k]))
  }

  /** The arity read at line k, if that line is an integer; nothing past the end of the file. */
  function ArityAt(ar: seq<Option<int>>, k: nat): Option<int>
  {
    if k < |ar| then ar[k] else None
  }

  /** Reading past the end of the file gives "", which `int` rejects. */
  lemma ArityAtLine(text: seq<string>, k: nat)
    ensures ArityAt(Arities(text), k) == ParseInt(Line(text, k))
  {
  }

  /** `range(a)` has no elements for a negative a. */
  function Clamp(a: int): nat { if a < 0 then 0 else a }

  /** The k stripped lines starting at line pos, one variable name each. */
  function Names(text: seq<string>, pos: nat, k: nat): (r: seq<string>)
    ensures |r| == k
  {
    if k == 0 then [] else Names(text, pos, k - 1) + [Line(text, pos + k - 1)]
  }

  lemma {:induction false} NamesAt(text: seq<string>, pos: nat, k: nat, i: nat)
    requires i < k
    ensures Names(text, pos, k)[i] == Line(text, pos + i)
  {
    if i < k - 1 {
      NamesAt(text, pos, k - 1, i);
    }
  }

  /** The groups occupy lines pos up to end, each an integer arity line followed by its names. */
  predicate Layout(text: seq<string>, ar: seq<Option<int>>, pos: nat, groups: seq<seq<string>>, end: nat)
    decreases |groups|
  {
    if groups == [] then end == pos
    else
      var a := ArityAt(ar, pos);
      && a.Some?
      && groups[0] == Names(text, pos + 1, Clamp(a.value))
      && Layout(text, ar, pos + 1 + |groups[0]|, groups[1..], end)
  }

  /** The groups read from line pos: they stop at the first arity line that is not an integer. */
  predicate GroupsFrom(text: seq<string>, ar: seq<Option<int>>, pos: nat, groups: seq<seq<string>>)
    decreases |groups|
  {
    if groups == [] then ArityAt(ar, pos).None?
    else
      var a := ArityAt(ar, pos);
      && a.Some?
      && groups[0] == Names(text, pos + 1, Clamp(a.value))
      && GroupsFrom(text, ar, pos + 1 + |groups[0]|, groups[1..])
  }

  lemma {:induction false} LayoutSnoc(text: seq<string>, ar: seq<Option<int>>, start: nat, groups: seq<seq<string>>, pos: nat, g: seq<string>)
    requires Layout(text, ar, start, groups, pos)
    requires ArityAt(ar, pos).Some? && g == Names(text, pos + 1, Clamp(ArityAt(ar, pos).value))
    ensures Layout(text, ar, start, groups + [g], pos + 1 + |g|)
    decreases |groups|
  {
    if groups == [] {
      assert ([] + [g])[1..] == [];
    } else {
      LayoutSnoc(text, ar, start + 1 + |groups[0]|, groups[1..], pos, g);
      assert (groups + [g])[1..] == groups[1..] + [g];
    }
  }

  lemma {:induction false} LayoutStop(text: seq<string>, ar: seq<Option<int>>, start: nat, groups: seq<seq<string>>, pos: nat)
    requires Layout(text, ar, start, groups, pos) && ArityAt(ar, pos).None?
    ensures GroupsFrom(text, ar, start, groups)
    decreases |groups|
  {
    if groups != [] {
      LayoutStop(text, ar, start + 1 + |groups[0]|, groups[1..], pos);
    }
  }

  /** The file determines its groups: there is only one way to read them. */
  lemma {:induction false} GroupsUnique(text: seq<string>, ar: seq<Option<int>>, pos: nat, g1: seq<seq<string>>, g2: seq<seq<string>>)
    requires GroupsFrom(text, ar, pos, g1) && GroupsFrom(text, ar, pos, g2)
    ensures g1 == g2
    decreases |g1|
  {
    if g1 != [] && g2 != [] {
      GroupsUnique(text, ar, pos + 1 + |g1[0]|, g1[1..], g2[1..]);
      assert g1 == [g1[0]] + g1[1..];
      assert g2 == [g2[0]] + g2[1..];
    }
  }

  // ---------------------------------------------------------------- one-hot combinations

  /** `reduce(operator.mul, (len(g) for g in groups), 1)`. */
  function Product<T>(groups: seq<seq<T>>): nat
  {
    if groups == [] then 1 else Product(groups[..|groups| - 1]) * |groups[|groups| - 1]|
  }

  /** `count` is 0 exactly when some group is empty, as an arity line of 0 or less makes it. */
  lemma {:induction false} ProductZero<T>(groups: seq<seq<T>>)
    ensures Product(groups) == 0 <==> exists i :: 0 <= i < |groups| && groups[i] == []
  {
    if groups != [] {
      var front, last := groups[..|groups| - 1], groups[|groups| - 1];
      ProductZero(front);
      assert forall i :: 0 <= i < |front| ==> front[i] == groups[i];
      if Product(front) != 0 && last != [] {
        assert Product(groups) == Product(front) * |last| != 0 by {
          assert Product(front) > 0 && |last| > 0;
        }
      }
    }
  }

  /** Each combination in `cs` extended by each element of g, the last factor varying fastest. */
  function Extend<T>(cs: seq<seq<T>>, g: seq<T>): seq<seq<T>>
  {
    if cs == [] then [] else seq(|g|, j requires 0 <= j < |g| => cs[0] + [g[j]]) + Extend(cs[1..], g)
  }

  /** `itertools.product(*groups)`, the one-hot combinations the producer enumerates. */
  function Combinations<T>(groups: seq<seq<T>>): seq<seq<T>>
  {
    if groups == [] then [[]] else Extend(Combinations(groups[..|groups| - 1]), groups[|groups| - 1])
  }

  lemma {:induction false} ExtendLength<T>(cs: seq<seq<T>>, g: seq<T>)
    ensures |Extend(cs, g)| == |cs| * |g|
  {
    if cs != [] {
      ExtendLength(cs[1..], g);
      assert |cs| * |g| == |g| + (|cs| - 1) * |g|;
    }
  }

  lemma {:induction false} ExtendMembers<T>(cs: seq<seq<T>>, g: seq<T>, c: seq<T>)
    ensures c in Extend(cs, g) <==> |c| > 0 && c[..|c| - 1] in cs && c[|c| - 1] in g
  {
    if cs != [] {
      ExtendMembers(cs[1..], g, c);
      var front := seq(|g|, j requires 0 <= j < |g| => cs[0] + [g[j]]);
      if c in front {
        var j :| 0 <= j < |g| && front[j] == c;
        assert c[..|c| - 1] == cs[0];
      }
      if |c| > 0 && c[..|c| - 1] == cs[0] && c[|c| - 1] in g {
        var j :| 0 <= j < |g| && g[j] == c[|c| - 1];
        assert c == front[j];
      }
    }
  }

  /** The combinations are exactly the choices of one element from each group, in order. */
  lemma {:induction false} CombinationsMembers<T>(groups: seq<seq<T>>, c: seq<T>)
    ensures c in Combinations(groups)
        <==> |c| == |groups| && forall i :: 0 <= i < |c| ==> c[i] in groups[i]
    decreases |groups|
  {
    if groups != [] {
      var n := |groups| - 1;
      ExtendMembers(Combinations(groups[..n]), groups[n], c);
      if |c| > 0 {
        CombinationsMembers(groups[..n], c[..|c| - 1]);
      }
    }
  }

  /** `count` is the number of one-hot combinations the producer enumerates. */
  lemma {:induction false} CountIsCombinations<T>(groups: seq<seq<T>>)
    ensures |Combinations(groups)| == Product(groups)
    decreases |groups|
  {
    if groups != [] {
      var n := |groups| - 1;
      CountIsCombinations(groups[..n]);
      ExtendLength(Combinations(groups[..n]), groups[n]);
    }
  }

  // ---------------------------------------------------------------- bounds and custom features

  /** `itertools.chain(*groups)`. */
  function Flatten(groups: seq<seq<string>>): (r: seq<string>)
    ensures forall x :: x in r <==> exists i :: 0 <= i < |groups| && x in groups[i]
  {
    if groups == [] then []
    else
      var r := Flatten(groups[..|groups| - 1]) + groups[|groups| - 1];
      assert forall i :: 0 <= i < |groups| - 1 ==> groups[..|groups| - 1][i] == groups[i];
      r
  }

  /** `set(sensitive) | set(chain(*groups))`: the variables that are not custom encoded. */
  function Excluded(sensitive: seq<string>, groups: seq<seq<string>>): (ex: set<string>)
    ensures forall x :: x in ex <==> x in sensitive || exists i :: 0 <= i < |groups| && x in groups[i]
  {
    set x | x in sensitive + Flatten(groups)
  }

  /**
   * The inputs that are in none of the excluded variables. The source lists a set difference, in
   * some fixed order; the model takes the order of `inputs`.
   */
  function CustomEncoded(inputs: seq<string>, excluded: set<string>): (r: seq<string>)
    ensures forall x :: x in r <==> x in inputs && x !in excluded
    ensures Distinct(inputs) ==> Distinct(r)
    ensures |r| <= |inputs|
  {
    if inputs == [] then []
    else
      var rest := CustomEncoded(inputs[1..], excluded);
      assert forall x :: x in inputs <==> x == inputs[0] || x in inputs[1..];
      if inputs[0] in excluded then rest else [inputs[0]] + rest
  }

  /** `bounds and 0 <= v and v <= 1` for every v of vars in turn. */
  method AddUnitBounds(acc: Formula, vars: seq<string>) returns (f: Formula)
    ensures forall env: Assignment ::
      Holds(f, env) <==> Holds(acc, env) && forall k :: 0 <= k < |vars| ==> 0.0 <= env(vars[k]) <= 1.0
  {
    f := acc;
    for i := 0 to |vars|
      invariant forall env: Assignment ::
        Holds(f, env) <==> Holds(acc, env) && forall k :: 0 <= k < i ==> 0.0 <= env(vars[k]) <= 1.0
    {
      f := And(f, Between(0.0, vars[i], 1.0));
    }
  }

  // ---------------------------------------------------------------- the whole specification

  datatype SpecError = SensitiveArityNotInteger | NoSensitiveFeature

  datatype Spec = Spec(
    sensitive: seq<string>,          // the variables one-hot encoding the sensitive feature
    values: set<OneHot1>,            // its one-hot values
    groups: seq<seq<string>>,        // the one-hot encoded uncontroversial features
    count: nat,                      // the number of their one-hot combinations
    bounds: Formula,                 // all these variables lie between 0 and 1
    custom: seq<string>)             // the custom encoded uncontroversial features

  /** The `for i in range(arity)` loops: the next `arity` stripped lines, one name each. */
  method ReadNames(text: seq<string>, pos: nat, arity: int) returns (names: seq<string>)
    ensures names == Names(text, pos, Clamp(arity))
  {
    names := [];
    for i := 0 to Clamp(arity)
      invariant names == Names(text, pos, i)
    {
      names := names + [Line(text, pos + i)];
    }
  }

  /** The `while True` loop: groups are read until an arity line is not an integer. */
  method ReadGroups(text: seq<string>, ar: seq<Option<int>>, start: nat) returns (groups: seq<seq<string>>)
    requires |ar| == |text|
    ensures GroupsFrom(text, ar, start, groups)
  {
    groups := [];
    var pos := start;
    while true
      invariant Layout(text, ar, start, groups, pos)
      decreases |text| - pos
    {
      var a := ArityAt(ar, pos);
      if a.None? {
        // `int(arity)` raises ValueError
        LayoutStop(text, ar, start, groups, pos);
        break;
      }
      var group := ReadNames(text, pos + 1, a.value);
      LayoutSnoc(text, ar, start, groups, pos, group);
      groups, pos := groups + [group], pos + 1 + |group|;
    }
  }

  /** Every variable that is sensitive or one-hot encoded lies between 0 and 1. */
  predicate WithinUnitBounds(sensitive: seq<string>, groups: seq<seq<string>>, env: Assignment)
  {
    && (forall k :: 0 <= k < |sensitive| ==> 0.0 <= env(sensitive[k]) <= 1.0)
    && (forall i, k :: 0 <= i < |groups| && 0 <= k < |groups[i]| ==> 0.0 <= env(groups[i][k]) <= 1.0)
  }

  /** `self.bounds`: 0 <= v <= 1 for the sensitive variables, then for each one-hot encoded one. */
  method UnitBounds(sensitive: seq<string>, groups: seq<seq<string>>) returns (bounds: Formula)
    requires |sensitive| > 0
    ensures forall env: Assignment :: Holds(bounds, env) <==> WithinUnitBounds(sensitive, groups, env)
  {
    bounds := AddUnitBounds(Between(0.0, sensitive[0], 1.0), sensitive[1..]);
    for i := 0 to |groups|
      invariant forall env: Assignment ::
        Holds(bounds, env) <==> WithinUnitBounds(sensitive, groups[..i], env)
    {
      bounds := AddUnitBounds(bounds, groups[i]);
      assert forall j :: 0 <= j < i ==> groups[..i + 1][j] == groups[..i][j];
    }
    assert groups[..|groups|] == groups;
  }

  /**
   * The specification block of `analyze`: an arity line and that many sensitive names, then
   * (arity line, names) groups until the first arity line that is not an integer.
   */
  method ParseSpec(lines: seq<string>, inputs: seq<string>) returns (r: Result<Spec, SpecError>)
    ensures ArityAt(Arities(Stripped(lines)), 0).None? <==> r == Failure(SensitiveArityNotInteger)
    ensures r == Failure(NoSensitiveFeature)
        <==> ArityAt(Arities(Stripped(lines)), 0).Some? && ArityAt(Arities(Stripped(lines)), 0).value <= 0
    ensures r.Success? ==>
      var text := Stripped(lines);
      var k := ArityAt(Arities(text), 0).value;
      var s := r.value;
      && k > 0
      && s.sensitive == Names(text, 1, k)
      && s.values == OneHotPairs(s.sensitive)
      && GroupsFrom(text, Arities(text), 1 + k, s.groups)
      && s.count == Product(s.groups)
      && (forall env: Assignment :: Holds(s.bounds, env) <==> WithinUnitBounds(s.sensitive, s.groups, env))
      && s.custom == CustomEncoded(inputs, Excluded(s.sensitive, s.groups))
  {
    var text := Stripped(lines);
    var arities := Arities(text);
    var first := ArityAt(arities, 0);
    if first.None? {
      return Failure(SensitiveArityNotInteger);
    }
    var sensitive := ReadNames(text, 1, first.value);
    var values := OneHots(sensitive);
    if |sensitive| == 0 {
      // `self.sensitive[0]` raises IndexError
      return Failure(NoSensitiveFeature);
    }
    var k: nat := first.value;
    assert |sensitive| == k;
    var groups := ReadGroups(text, arities, 1 + k);
    var count := Product(groups);
    var bounds := UnitBounds(sensitive, groups);
    var custom := CustomEncoded(inputs, Excluded(sensitive, groups));
    r := Success(Spec(sensitive, values, groups, count, bounds, custom));
  }

  /** The first chunk put on the queue: every custom feature in (0, 1), 100 percent, pivots 0. */
  function InitialChunk(custom: seq<string>): (c: Chunk)
    ensures |c.ranges| == |custom|
    ensures forall j :: 0 <= j < |custom| ==> c.ranges[j] == (custom[j], Range(0.0, 1.0))
    ensures c.assumptions == [] && c.unpacked == {} && c.splittable == custom
    ensures c.pivot1 == 0 && c.pivot2 == 0 && c.percent == 100.0 && c.key == None
  {
    Chunk([], 0, {}, seq(|custom|, j requires 0 <= j < |custom| => (custom[j], Range(0.0, 1.0))),
          0, custom, 100.0, None)
  }
}
