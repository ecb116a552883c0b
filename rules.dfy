/**
 * The survival/birth rule notation "S/B" (pkg/gol/gol.go, SetRules): the text is split
 * on '/', every character of the first part is a neighbour count that keeps a live cell
 * alive, every character of the second part a count that brings a dead cell to life.
 */
module Rules {
  import opened Wrappers

  /** The two digit sets a rule string stands for. */
  datatype Rule = Rule(survival: set<int>, birth: set<int>)

  /** Why SetRules panics: a character strconv.Atoi rejects, or no '/' at all. */
  datatype RuleError = NotADigit(c: char) | MissingBirth

  /** Position of the first occurrence of c in s. */
  function IndexOf(s: string, c: char): (k: nat)
    requires c in s
    ensures k < |s| && s[k] == c && c !in s[..k]
  {
    if s[0] == c then 0
    else
      var k := 1 + IndexOf(s[1..], c);
      assert s[..k] == [s[0]] + s[1..][..k - 1];
      k
  }

  /** strings.Split(s, sep): the pieces between separators, always at least one. */
  function Split(s: string, sep: char): (parts: seq<string>)
    ensures |parts| >= 1
    ensures |parts| == 1 <==> sep !in s
    ensures forall p | p in parts :: sep !in p
    decreases |s|
  {
    if sep !in s then [s]
    else
      var k := IndexOf(s, sep);
      [s[..k]] + Split(s[k + 1..], sep)
  }

  /** strings.Join(parts, sep), the inverse of Split. */
  function Join(parts: seq<string>, sep: char): string
    requires |parts| >= 1
  {
    if |parts| == 1 then parts[0] else parts[0] + [sep] + Join(parts[1..], sep)
  }

  /** A text is its prefix, the character at k and the rest. */
  lemma Recompose(s: string, k: nat)
    requires k < |s|
    ensures s == s[..k] + [s[k]] + s[k + 1..]
  {
    assert s == s[..k] + s[k..];
    assert s[k..] == [s[k]] + s[k + 1..];
  }

  /** Joining the pieces of a split gives the text back. */
  lemma {:induction false} JoinSplit(s: string, sep: char)
    ensures Join(Split(s, sep), sep) == s
    decreases |s|
  {
    if sep in s {
      var k := IndexOf(s, sep);
      var head, tail := s[..k], s[k + 1..];
      var rest := Split(tail, sep);
      JoinSplit(tail, sep);
      var parts := [head] + rest;
      assert Split(s, sep) == parts;
      assert parts[0] == head && parts[1..] == rest && |parts| > 1;
      assert Join(parts, sep) == head + [sep] + Join(rest, sep);
      Recompose(s, k);
    }
  }

  /** The first separator of `p + [sep] + rest` follows p when p holds none. */
  lemma IndexOfAfter(p: string, sep: char, rest: string)
    requires sep !in p
    ensures IndexOf(p + [sep] + rest, sep) == |p|
  {
    var s := p + [sep] + rest;
    assert forall m | 0 <= m < |p| :: s[m] == p[m];
    assert s[|p|] == sep;
    var k := IndexOf(s, sep);
    assert forall m | 0 <= m < k :: s[..k][m] == s[m];
  }

  /** Splitting a join of separator-free pieces gives the pieces back. */
  lemma {:induction false} SplitJoin(parts: seq<string>, sep: char)
    requires |parts| >= 1
    requires forall p | p in parts :: sep !in p
    ensures Split(Join(parts, sep), sep) == parts
  {
    if |parts| > 1 {
      var s := Join(parts, sep);
      var rest := Join(parts[1..], sep);
      assert parts[0] in parts;
      IndexOfAfter(parts[0], sep, rest);
      assert s[..|parts[0]|] == parts[0];
      assert s[|parts[0]| + 1..] == rest;
      SplitJoin(parts[1..], sep);
    }
  }

  predicate IsDigit(c: char) {
    '0' <= c <= '9'
  }

  /** The character of a digit value 0..9. */
  function DigitChar(d: int): (c: char)
    requires 0 <= d <= 9
    ensures IsDigit(c) && c as int - '0' as int == d
  {
    ('0' as int + d) as char
  }

  /**
   * The loop over one side of the rule: strconv.Atoi of every single character, added
   * to the set; the first character that is not a digit is the panic.
   */
  function ParseDigits(s: string): (r: Result<set<int>, RuleError>)
    ensures r.Success? <==> forall k | 0 <= k < |s| :: IsDigit(s[k])
    ensures r.Success? ==> forall d :: d in r.value <==> 0 <= d <= 9 && DigitChar(d) in s
    ensures r.Failure? ==> r.error.NotADigit? && r.error.c in s && !IsDigit(r.error.c)
  {
    if s == [] then Success({})
    else if !IsDigit(s[0]) then Failure(NotADigit(s[0]))
    else
      match ParseDigits(s[1..])
      case Failure(e) => Failure(e)
      case Success(ds) =>
        var d := s[0] as int - '0' as int;
        assert DigitChar(d) == s[0];
        assert forall e | 0 <= e <= 9 :: DigitChar(e) in s <==> DigitChar(e) == s[0] || DigitChar(e) in s[1..];
        Success({d} + ds)
  }

  /** The first character that is not a digit is the one ParseDigits reports. */
  lemma {:induction false} ParseDigitsStopsAt(s: string, k: nat)
    requires k < |s| && !IsDigit(s[k])
    requires forall m | 0 <= m < k :: IsDigit(s[m])
    ensures ParseDigits(s) == Failure(NotADigit(s[k]))
  {
    if k > 0 {
      ParseDigitsStopsAt(s[1..], k - 1);
    }
  }

  /**
   * SetRules' parse: the survival side is checked first, then the missing birth side
   * (indexing rulesParts[1]), then the birth side. Parts after the second are ignored
   * and an empty side is an empty set.
   */
  function ParseRules(s: string): (r: Result<Rule, RuleError>)
    ensures r.Success? <==>
      '/' in s &&
      (forall k | 0 <= k < |Split(s, '/')[0]| :: IsDigit(Split(s, '/')[0][k])) &&
      (forall k | 0 <= k < |Split(s, '/')[1]| :: IsDigit(Split(s, '/')[1][k]))
    ensures r.Success? ==> forall d :: d in r.value.survival <==> 0 <= d <= 9 && DigitChar(d) in Split(s, '/')[0]
    ensures r.Success? ==> forall d :: d in r.value.birth <==> 0 <= d <= 9 && DigitChar(d) in Split(s, '/')[1]
  {
    var parts := Split(s, '/');
    match ParseDigits(parts[0])
    case Failure(e) => Failure(e)
    case Success(survival) =>
      if |parts| < 2 then Failure(MissingBirth)
      else
        match ParseDigits(parts[1])
        case Failure(e) => Failure(e)
        case Success(birth) => Success(Rule(survival, birth))
  }

  /** Every count in the rule is a single digit, as a parsed rule's always is. */
  predicate InRange(r: Rule) {
    (forall d | d in r.survival :: 0 <= d <= 9) && (forall d | d in r.birth :: 0 <= d <= 9)
  }

  /** The digits of ds from d upwards, ascending. */
  function DigitsFrom(ds: set<int>, d: nat): (s: string)
    requires d <= 10
    ensures forall k | 0 <= k < |s| :: IsDigit(s[k])
    ensures forall e | 0 <= e <= 9 :: DigitChar(e) in s <==> d <= e && e in ds
    ensures forall a, b | 0 <= a < b < |s| :: s[a] < s[b]
    ensures forall k | 0 <= k < |s| :: s[k] as int - '0' as int >= d
    decreases 10 - d
  {
    if d == 10 then ""
    else (if d in ds then [DigitChar(d)] else "") + DigitsFrom(ds, d + 1)
  }

  /** The canonical notation of a rule: each side's digits in ascending order. */
  function Format(r: Rule): (s: string)
    requires InRange(r)
  {
    DigitsFrom(r.survival, 0) + "/" + DigitsFrom(r.birth, 0)
  }

  /** Parsing the ascending digits of a set of single digits gives the set back. */
  lemma DigitsThenParse(ds: set<int>)
    requires forall d | d in ds :: 0 <= d <= 9
    ensures ParseDigits(DigitsFrom(ds, 0)) == Success(ds)
  {
    var s := DigitsFrom(ds, 0);
    var r := ParseDigits(s);
    assert r.Success?;
    forall d
      ensures d in r.value <==> d in ds
    {
      if 0 <= d <= 9 {
        assert DigitChar(d) in s <==> d in ds;
      }
    }
    assert r.value == ds;
  }

  /** Parsing the canonical notation of a rule gives the rule back. */
  lemma FormatThenParse(r: Rule)
    requires InRange(r)
    ensures ParseRules(Format(r)) == Success(r)
  {
    var sv, bv := DigitsFrom(r.survival, 0), DigitsFrom(r.birth, 0);
    assert '/' !in sv && '/' !in bv;
    assert Format(r) == Join([sv, bv], '/');
    SplitJoin([sv, bv], '/');
    DigitsThenParse(r.survival);
    DigitsThenParse(r.birth);
  }

  /** A parsed rule only holds single digits, and its canonical notation parses to it. */
  lemma ParseThenFormat(s: string)
    requires ParseRules(s).Success?
    ensures InRange(ParseRules(s).value)
    ensures ParseRules(Format(ParseRules(s).value)) == ParseRules(s)
  {
    FormatThenParse(ParseRules(s).value);
  }

  /** The classic rule of Conway's Game of Life: survive on 2 or 3, birth on 3. */
  function Conway(): Rule {
    Rule({2, 3}, {3})
  }

  /** The notation "23/3" parses to the classic rule. */
  lemma ConwayNotation()
    ensures ParseRules("23/3") == Success(Conway())
  {
    assert "23/3" == Join(["23", "3"], '/');
    SplitJoin(["23", "3"], '/');
    var sv, bv := ParseDigits("23"), ParseDigits("3");
    assert IsDigit("23"[0]) && IsDigit("23"[1]) && IsDigit("3"[0]);
    forall d | 0 <= d <= 9
      ensures (d in sv.value <==> d in {2, 3}) && (d in bv.value <==> d == 3)
    {
      assert DigitChar(d) in "23" <==> DigitChar(d) == '2' || DigitChar(d) == '3';
      assert DigitChar(d) in "3" <==> DigitChar(d) == '3';
    }
    assert sv.value == {2, 3} && bv.value == {3};
  }
}
