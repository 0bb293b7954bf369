/** `findBestSelectOption` (content.js): the first-match-wins cascade that
    picks the option of a `<select>` for a wanted value. */
module SelectMatch {
  import opened Text
  import opened Wrappers
  import opened Content

  /** The seven rules of the cascade, in the order they are tried. */
  datatype Rule = ExactValue | ExactText | TextContains | ValueContains | YearRange | Region | Gender

  /** All rules in cascade order. */
  const AllRules: seq<Rule> := [ExactValue, ExactText, TextContains, ValueContains, YearRange, Region, Gender]

  /** The demographic labels the last rule recognises. */
  const GenderLabels: seq<string> := ["male", "female", "non-binary", "other"]

  // ---------------------------------------------------------------------
  // The year-range pattern /(\d+)[-\s]*(?:to|-)\s*(\d+)|\d+/, written out.
  // ---------------------------------------------------------------------

  /** A character of the class `[-\s]`. */
  predicate IsSeparator(c: char)
  {
    c == '-' || IsSpace(c)
  }

  /** The end of the longest run of digits starting at `i` (`\d*`, greedy). */
  function DigitsEnd(s: string, i: nat): (j: nat)
    requires i <= |s|
    ensures i <= j <= |s|
    ensures forall k :: i <= k < j ==> IsDigit(s[k])
    ensures j == |s| || !IsDigit(s[j])
    decreases |s| - i
  {
    if i < |s| && IsDigit(s[i]) then DigitsEnd(s, i + 1) else i
  }

  /** The end of the longest run of white space starting at `i` (`\s*`). */
  function SpacesEnd(s: string, i: nat): (j: nat)
    requires i <= |s|
    ensures i <= j <= |s|
    ensures forall k :: i <= k < j ==> IsSpace(s[k])
    ensures j == |s| || !IsSpace(s[j])
    decreases |s| - i
  {
    if i < |s| && IsSpace(s[i]) then SpacesEnd(s, i + 1) else i
  }

  /** The end of the longest run of `[-\s]` starting at `i`. */
  function SeparatorsEnd(s: string, i: nat): (j: nat)
    requires i <= |s|
    ensures i <= j <= |s|
    ensures forall k :: i <= k < j ==> IsSeparator(s[k])
    ensures j == |s| || !IsSeparator(s[j])
    decreases |s| - i
  {
    if i < |s| && IsSeparator(s[i]) then SeparatorsEnd(s, i + 1) else i
  }

  /** The position of the first digit of `s`. */
  function FirstDigit(s: string): (r: Option<nat>)
    ensures r.Some? ==> r.value < |s| && IsDigit(s[r.value])
    ensures r.Some? ==> forall k :: 0 <= k < r.value ==> !IsDigit(s[k])
    ensures r.None? ==> forall k :: 0 <= k < |s| ==> !IsDigit(s[k])
  {
    if s == [] then None
    else if IsDigit(s[0]) then Some(0)
    else match FirstDigit(s[1..])
      case None => None
      case Some(k) => Some(k + 1)
  }

  /** `\s*(\d+)` from position `k`: the end of the match, if any. White space
      is taken greedily; giving some back cannot help, since a digit must
      follow. */
  function SecondNumber(s: string, k: nat): (r: Option<nat>)
    requires k <= |s|
    ensures r.Some? ==> k < r.value <= |s|
  {
    var t := SpacesEnd(s, k);
    if t < |s| && IsDigit(s[t]) then Some(DigitsEnd(s, t)) else None
  }

  /** `(?:to|-)\s*(\d+)` from position `k`: the end of the match, if any. */
  function Connector(s: string, k: nat): (r: Option<nat>)
    requires k <= |s|
    ensures r.Some? ==> k < r.value <= |s|
  {
    if k + 2 <= |s| && s[k] == 't' && s[k + 1] == 'o' then SecondNumber(s, k + 2)
    else if k < |s| && s[k] == '-' then SecondNumber(s, k + 1)
    else None
  }

  /** The backtracking of `[-\s]*`: the separator run is tried longest first,
      giving back one character at a time down to `lo`. */
  function Backtrack(s: string, lo: nat, k: nat): (r: Option<nat>)
    requires lo <= k <= |s|
    ensures r.Some? ==> lo < r.value <= |s|
    decreases k - lo
  {
    match Connector(s, k)
    case Some(u) => Some(u)
    case None => if k == lo then None else Backtrack(s, lo, k - 1)
  }

  /** `[-\s]*(?:to|-)\s*(\d+)` matches `s[q..u]` with the separators
      ending at `k`, where the connector starts, and the digits starting at
      `d`; the digits run as far as they go, since nothing follows them. */
  predicate RangeShape(s: string, q: nat, k: nat, d: nat, u: nat)
  {
    q <= k < d < u <= |s|
    && (forall i :: q <= i < k ==> IsSeparator(s[i]))
    && ((s[k] == '-' && (forall i :: k < i < d ==> IsSpace(s[i])))
        || (k + 2 <= d && s[k] == 't' && s[k + 1] == 'o' && (forall i :: k + 2 <= i < d ==> IsSpace(s[i]))))
    && (forall i :: d <= i < u ==> IsDigit(s[i]))
    && (u == |s| || !IsDigit(s[u]))
  }

  /** The range part of the pattern matches `s[q..u]`. */
  ghost predicate RangeMatches(s: string, q: nat, u: nat)
  {
    exists k, d :: RangeShape(s, q, k, d, u)
  }

  /** Before the second number of a range there is no digit. */
  lemma NoDigitBeforeSecond(s: string, q: nat, k: nat, d: nat, u: nat)
    requires RangeShape(s, q, k, d, u)
    ensures forall i :: q <= i < d ==> !IsDigit(s[i])
    ensures IsDigit(s[d])
  {
  }

  /** A range match after `q` has one end only. */
  lemma RangeUnique(s: string, q: nat, k1: nat, d1: nat, u1: nat, k2: nat, d2: nat, u2: nat)
    requires RangeShape(s, q, k1, d1, u1) && RangeShape(s, q, k2, d2, u2)
    ensures u1 == u2
  {
    NoDigitBeforeSecond(s, q, k1, d1, u1);
    NoDigitBeforeSecond(s, q, k2, d2, u2);
    assert d1 == d2;
  }

  /** Where the second number starts after the connector at `k`. */
  function SecondStart(s: string, k: nat): nat
    requires k < |s|
  {
    if k + 2 <= |s| && s[k] == 't' && s[k + 1] == 'o' then SpacesEnd(s, k + 2) else SpacesEnd(s, k + 1)
  }

  /** A connector that matches at `k`, after separators from `q`, makes a
      range match. */
  lemma ShapeOfConnector(s: string, q: nat, k: nat)
    requires q <= k <= |s| && forall i :: q <= i < k ==> IsSeparator(s[i])
    requires Connector(s, k).Some?
    ensures k < |s| && RangeShape(s, q, k, SecondStart(s, k), Connector(s, k).value)
  {
  }

  /** A range whose connector starts at `k` is what the connector finds
      there. */
  lemma ConnectorOfShape(s: string, q: nat, k: nat, d: nat, u: nat)
    requires RangeShape(s, q, k, d, u)
    ensures Connector(s, k) == Some(u)
  {
    NoDigitBeforeSecond(s, q, k, d, u);
    if s[k] == '-' {
      assert SpacesEnd(s, k + 1) == d;
    } else {
      assert SpacesEnd(s, k + 2) == d;
    }
  }

  /** What the backtracking finds is a range match. */
  lemma {:induction false} BacktrackSound(s: string, q: nat, k: nat)
    requires q <= k <= |s| && forall i :: q <= i < k ==> IsSeparator(s[i])
    ensures Backtrack(s, q, k).Some? ==> RangeMatches(s, q, Backtrack(s, q, k).value)
    decreases k - q
  {
    if Connector(s, k).Some? {
      ShapeOfConnector(s, q, k);
    } else if k > q {
      BacktrackSound(s, q, k - 1);
    }
  }

  /** Two connectors that match after the same separator run reach the same
      end. */
  lemma ConnectorsAgree(s: string, q: nat, j: nat, k: nat)
    requires q <= k <= j <= |s| && forall i :: q <= i < j ==> IsSeparator(s[i])
    requires Connector(s, j).Some? && Connector(s, k).Some?
    ensures Connector(s, j) == Connector(s, k)
  {
    ShapeOfConnector(s, q, j);
    ShapeOfConnector(s, q, k);
    RangeUnique(s, q, j, SecondStart(s, j), Connector(s, j).value, k, SecondStart(s, k), Connector(s, k).value);
  }

  /** Backtracking from any point at or after a matching connector finds
      what that connector finds, when no connector in between disagrees. */
  lemma {:induction false} BacktrackFinds(s: string, q: nat, j: nat, k: nat)
    requires q <= k <= j <= |s| && Connector(s, k).Some?
    requires forall i :: k < i <= j && Connector(s, i).Some? ==> Connector(s, i) == Connector(s, k)
    ensures Backtrack(s, q, j) == Connector(s, k)
    decreases j - k
  {
    if j > k && Connector(s, j).None? {
      BacktrackFinds(s, q, j - 1, k);
    }
  }

  /** The backtracking over the whole separator run finds every range match
      there is. */
  lemma BacktrackComplete(s: string, q: nat, u: nat)
    requires q <= |s|
    ensures RangeMatches(s, q, u) ==> Backtrack(s, q, SeparatorsEnd(s, q)) == Some(u)
  {
    if RangeMatches(s, q, u) {
      var k, d :| RangeShape(s, q, k, d, u);
      ConnectorOfShape(s, q, k, d, u);
      var j := SeparatorsEnd(s, q);
      forall i | k < i <= j && Connector(s, i).Some?
        ensures Connector(s, i) == Connector(s, k)
      {
        ConnectorsAgree(s, q, i, k);
      }
      BacktrackFinds(s, q, j, k);
    }
  }

  /** The end of the pattern's match at the digit at `p`. The first
      alternative's leading `\d+` can only succeed with the whole digit run
      (a digit can start neither `[-\s]` nor the connector), so the match is
      that run followed by a range when there is one, and the run alone
      otherwise. */
  function MatchEnd(s: string, p: nat): (u: nat)
    requires p < |s| && IsDigit(s[p])
    ensures DigitsEnd(s, p) <= u <= |s|
    ensures RangeMatches(s, DigitsEnd(s, p), u)
            || (u == DigitsEnd(s, p) && forall v: nat :: !RangeMatches(s, DigitsEnd(s, p), v))
  {
    var q := DigitsEnd(s, p);
    var sep := SeparatorsEnd(s, q);
    BacktrackSound(s, q, sep);
    match Backtrack(s, q, sep)
    case Some(u) => u
    case None =>
      assert forall v: nat :: RangeMatches(s, q, v) ==> Backtrack(s, q, sep) == Some(v) by {
        forall v: nat ensures RangeMatches(s, q, v) ==> Backtrack(s, q, sep) == Some(v) {
          BacktrackComplete(s, q, v);
        }
      }
      q
  }

  /** The match of the pattern starting at the digit at `p`. */
  function MatchAt(s: string, p: nat): (m: string)
    requires p < |s| && IsDigit(s[p])
    ensures |m| > 0 && IsDigit(m[0]) && IsDigit(m[|m| - 1])
  {
    var q := DigitsEnd(s, p);
    var u := MatchEnd(s, p);
    assert p < q && IsDigit(s[q - 1]);
    assert IsDigit(s[u - 1]) by { SecondNumberEndsWithDigit(s, q, SeparatorsEnd(s, q)); }
    assert s[p..u][0] == s[p] && s[p..u][u - p - 1] == s[u - 1];
    s[p..u]
  }

  /** `s.match(/(\d+)[-\s]*(?:to|-)\s*(\d+)|\d+/)[0]`. Both alternatives
      start with a digit, so the match starts at the first digit; it covers
      that digit's run and, when one follows, a range. */
  function YearMatch(s: string): (r: Option<string>)
    ensures r.Some? <==> exists k :: 0 <= k < |s| && IsDigit(s[k])
    ensures r.Some? ==> |r.value| > 0 && IsDigit(r.value[0]) && IsDigit(r.value[|r.value| - 1])
    ensures r.Some? ==> var p := FirstDigit(s).value; r.value == s[p..MatchEnd(s, p)]
  {
    match FirstDigit(s)
    case None => None
    case Some(p) => Some(MatchAt(s, p))
  }

  /** Whatever the backtracking matches ends with the last digit of a run. */
  lemma {:induction false} SecondNumberEndsWithDigit(s: string, lo: nat, k: nat)
    requires lo <= k <= |s|
    ensures Backtrack(s, lo, k).Some? ==> IsDigit(s[Backtrack(s, lo, k).value - 1])
    decreases k - lo
  {
    if Connector(s, k).None? && k != lo {
      SecondNumberEndsWithDigit(s, lo, k - 1);
    }
  }

  /** The token rule 5 looks for: the match with its white space removed and
      its first "to" turned into "-". */
  function YearToken(m: string): (r: string)
    ensures forall i :: 0 <= i < |r| ==> !IsSpace(r[i])
    ensures !Contains(RemoveSpaces(m), "to") ==> r == RemoveSpaces(m)
    ensures forall i: nat :: OccursAt(RemoveSpaces(m), "to", i)
                             && (forall j: nat :: j < i ==> !OccursAt(RemoveSpaces(m), "to", j))
                             ==> r == RemoveSpaces(m)[..i] + "-" + RemoveSpaces(m)[i + 2..]
  {
    var t := RemoveSpaces(m);
    ReplaceFirstSpec(t, "to", "-");
    ReplaceFirst(t, "to", "-")
  }

  // ---------------------------------------------------------------------
  // The cascade.
  // ---------------------------------------------------------------------

  /** Whether a rule is tried at all for the lower-cased, trimmed target. */
  predicate Applies(rule: Rule, t: string)
  {
    match rule
    case YearRange => Contains(t, "year") && YearMatch(t).Some?
    case Region => Contains(t, "india") || t == "in"
    case Gender => t in GenderLabels
    case _ => true
  }

  /** Whether option `o` satisfies a rule for the lower-cased, trimmed target. */
  predicate Matches(rule: Rule, o: SelectOption, t: string)
  {
    var value, text := Lower(o.value), Lower(o.text);
    match rule
    case ExactValue => value == t
    case ExactText => Trim(text) == t
    case TextContains => Contains(text, t)
    case ValueContains => Contains(value, t)
    case YearRange =>
      (match YearMatch(t)
       case None => false
       case Some(m) => Contains(text, YearToken(m)) || Contains(value, YearToken(m)))
    case Region => Contains(text, "india") || value == "in" || value == "india"
    case Gender => Contains(text, t) || Contains(value, t)
  }

  /** `Array.prototype.findIndex`, with no hit as `None`: the position of the
      first element accepted. */
  function FindFirst<T>(xs: seq<T>, accept: T -> bool): (r: Option<nat>)
    ensures r.Some? ==> r.value < |xs| && accept(xs[r.value])
    ensures r.Some? ==> forall j :: 0 <= j < r.value ==> !accept(xs[j])
    ensures r.None? ==> forall j :: 0 <= j < |xs| ==> !accept(xs[j])
  {
    if xs == [] then None
    else if accept(xs[0]) then Some(0)
    else match FindFirst(xs[1..], accept)
      case None => None
      case Some(j) => Some(j + 1)
  }

  /** Two searches that accept at the same positions find the same one. */
  lemma FindFirstAgree<T, U>(xs: seq<T>, ys: seq<U>, accept: T -> bool, accept': U -> bool)
    requires |xs| == |ys|
    requires forall i :: 0 <= i < |xs| ==> accept(xs[i]) == accept'(ys[i])
    ensures FindFirst(xs, accept) == FindFirst(ys, accept')
  {
  }

  /** Some option is accepted by `rule`. */
  predicate Fires(options: seq<SelectOption>, rule: Rule, accepts: (Rule, SelectOption) -> bool)
  {
    exists j :: 0 <= j < |options| && accepts(rule, options[j])
  }

  /** A first-match-wins cascade: the rules are tried in order, each returning
      the first option it accepts. There is an answer exactly when some rule
      accepts some option; `CascadeReaches` says which option it is. */
  function Cascade(options: seq<SelectOption>, rules: seq<Rule>, accepts: (Rule, SelectOption) -> bool)
    : (r: Option<SelectOption>)
    ensures r.Some? <==> exists a :: 0 <= a < |rules| && Fires(options, rules[a], accepts)
    ensures r.Some? ==> r.value in options
    decreases |rules|
  {
    if rules == [] then None
    else
      match FindFirst(options, o => accepts(rules[0], o))
      case Some(i) =>
        assert Fires(options, rules[0], accepts) by { assert accepts(rules[0], options[i]); }
        Some(options[i])
      case None =>
        var rest := Cascade(options, rules[1..], accepts);
        assert !Fires(options, rules[0], accepts);
        assert forall a :: 1 <= a < |rules| ==> rules[a] == rules[1..][a - 1];
        rest
  }

  /** The test rule `rule` applies to option `o` for the lower-cased, trimmed
      target `t`: the rule is tried for `t` and `o` satisfies it. */
  predicate Accepts(t: string, rule: Rule, o: SelectOption)
  {
    Applies(rule, t) && Matches(rule, o, t)
  }

  /** `findBestSelectOption`: null for an empty target; otherwise the cascade
      of all seven rules on the lower-cased, trimmed target. */
  function FindBestSelectOption(options: seq<SelectOption>, target: string): (r: Option<SelectOption>)
    ensures target == "" ==> r.None?
    ensures options == [] ==> r.None?
    ensures r.Some? ==> r.value in options
  {
    if target == "" then None
    else
      var t := Trim(Lower(target));
      Cascade(options, AllRules, (rule, o) => Accepts(t, rule, o))
  }

  /** When no rule before rule `k` accepts any option and rule `k` accepts
      option `i` and none before it, the cascade returns option `i`. */
  lemma {:induction false} CascadeReaches(options: seq<SelectOption>, rules: seq<Rule>,
                                          accepts: (Rule, SelectOption) -> bool, k: nat, i: nat)
    requires k < |rules| && i < |options| && accepts(rules[k], options[i])
    requires forall a, j :: 0 <= a < k && 0 <= j < |options| ==> !accepts(rules[a], options[j])
    requires forall j :: 0 <= j < i ==> !accepts(rules[k], options[j])
    ensures Cascade(options, rules, accepts) == Some(options[i])
    decreases k
  {
    var found := FindFirst(options, o => accepts(rules[0], o));
    if k == 0 {
      assert found.Some?;
    } else {
      assert found.None?;
      CascadeReaches(options, rules[1..], accepts, k - 1, i);
    }
  }

  /** A rule whose every accepted option is also accepted by two earlier rules
      adds nothing at the end of a cascade. */
  lemma CoveredRuleAddsNothing(options: seq<SelectOption>, rules: seq<Rule>, extra: Rule,
                               accepts: (Rule, SelectOption) -> bool, a1: nat, a2: nat)
    requires a1 < |rules| && a2 < |rules|
    requires forall o :: accepts(extra, o) ==> accepts(rules[a1], o) || accepts(rules[a2], o)
    ensures Cascade(options, rules + [extra], accepts) == Cascade(options, rules, accepts)
  {
    CascadePrefix(options, rules, [extra], accepts);
    if Cascade(options, rules, accepts).None? {
      forall j | 0 <= j < |options| ensures !accepts(extra, options[j]) {
        assert !Fires(options, rules[a1], accepts) && !Fires(options, rules[a2], accepts);
      }
      assert !Fires(options, [extra][0], accepts);
    }
  }

  /** Rule priority: an exact value match (ignoring case) is always chosen
      over anything the later rules would find, and among options whose value
      matches, the first wins. */
  lemma ExactValueWins(options: seq<SelectOption>, target: string, i: nat)
    requires target != "" && i < |options|
    requires Lower(options[i].value) == Trim(Lower(target))
    requires forall j :: 0 <= j < i ==> Lower(options[j].value) != Trim(Lower(target))
    ensures FindBestSelectOption(options, target) == Some(options[i])
  {
    var t := Trim(Lower(target));
    var accepts := (rule, o) => Accepts(t, rule, o);
    assert AllRules[0] == ExactValue;
    assert accepts(AllRules[0], options[i]) by { assert Matches(ExactValue, options[i], t); }
    forall j | 0 <= j < i ensures !accepts(AllRules[0], options[j]) {
      assert !Matches(ExactValue, options[j], t);
    }
    CascadeReaches(options, AllRules, accepts, 0, i);
  }

  /** An option of the gender rule already satisfies rule 3 or rule 4. */
  lemma GenderImpliesContains(t: string, o: SelectOption)
    requires Accepts(t, Gender, o)
    ensures Accepts(t, TextContains, o) || Accepts(t, ValueContains, o)
  {
  }

  /** The gender rule never decides anything: its test is exactly "text or
      value contains the target", which rules 3 and 4 have already tried, so
      the cascade without it chooses the same option. */
  lemma GenderRuleShadowed(options: seq<SelectOption>, target: string)
    requires target != ""
    ensures var t := Trim(Lower(target));
            FindBestSelectOption(options, target) == Cascade(options, AllRules[..6], (rule, o) => Accepts(t, rule, o))
  {
    var t := Trim(Lower(target));
    var accepts := (rule, o) => Accepts(t, rule, o);
    var six := AllRules[..6];
    LastRuleIsGender();
    forall o | accepts(Gender, o) ensures accepts(six[2], o) || accepts(six[3], o) {
      GenderImpliesContains(t, o);
    }
    CoveredRuleAddsNothing(options, six, Gender, accepts, 2, 3);
  }

  /** The gender rule comes last, after the two containment rules. */
  lemma LastRuleIsGender()
    ensures AllRules[..6] + [Gender] == AllRules
    ensures AllRules[..6][2] == TextContains && AllRules[..6][3] == ValueContains
  {
  }

  /** Running a list of rules followed by more rules gives the first list's
      answer whenever it has one, and the second list's answer otherwise. */
  lemma {:induction false} CascadePrefix(options: seq<SelectOption>, rules: seq<Rule>, more: seq<Rule>,
                                         accepts: (Rule, SelectOption) -> bool)
    ensures Cascade(options, rules + more, accepts)
            == if Cascade(options, rules, accepts).Some? then Cascade(options, rules, accepts)
               else Cascade(options, more, accepts)
    decreases |rules|
  {
    if rules != [] {
      assert (rules + more)[0] == rules[0];
      assert (rules + more)[1..] == rules[1..] + more;
      CascadePrefix(options, rules[1..], more, accepts);
    } else {
      assert rules + more == more;
    }
  }

    /** The pattern matches "3 to 5" in "3 to 5 years". */
  lemma YearMatchExample()
    ensures YearMatch("3 to 5 years") == Some("3 to 5")
  {
    var t := "3 to 5 years";
    assert FirstDigit(t) == Some(0);
    assert DigitsEnd(t, 0) == 1 by { assert DigitsEnd(t, 1) == 1; }
    assert SeparatorsEnd(t, 1) == 2 by { assert SeparatorsEnd(t, 2) == 2; }
    assert t[2..4] == "to";
    assert SpacesEnd(t, 4) == 5 by { assert SpacesEnd(t, 5) == 5; }
    assert DigitsEnd(t, 5) == 6 by { assert DigitsEnd(t, 6) == 6; }
    assert SecondNumber(t, 4) == Some(6);
    assert Connector(t, 2) == Some(6);
    assert Backtrack(t, 1, 2) == Some(6);
    assert t[0..6] == "3 to 5";
  }

  /** The match "3 to 5" normalises to the token "3-5". */
  lemma YearTokenExample()
    ensures YearToken("3 to 5") == "3-5"
  {
    var m := "3 to 5";
    assert RemoveSpaces(m[..1]) == "3";
    assert RemoveSpaces(m[..2]) == "3" by { assert m[..2][..1] == m[..1]; }
    assert RemoveSpaces(m[..3]) == "3t" by { assert m[..3][..2] == m[..2]; }
    assert RemoveSpaces(m[..4]) == "3to" by { assert m[..4][..3] == m[..3]; }
    assert RemoveSpaces(m[..5]) == "3to" by { assert m[..5][..4] == m[..4]; }
    assert RemoveSpaces(m) == "3to5" by { assert m[..5] == m[..|m| - 1]; }
    var r := "3to5";
    assert r[..2][0] == '3';
    assert r[1..][..2] == "to";
    assert ReplaceFirst(r[1..], "to", "-") == "-5";
    assert ReplaceFirst(r, "to", "-") == "3-5";
  }

  /** The first four rules cannot accept an option whose text and value are
      both shorter than the target. */
  lemma ShortOptionRejected(t: string, rule: Rule, o: SelectOption)
    requires rule in [ExactValue, ExactText, TextContains, ValueContains]
    requires |o.text| < |t| && |o.value| < |t|
    ensures !Accepts(t, rule, o)
  {
    var value, text := Lower(o.value), Lower(o.text);
    if rule == ExactValue {
      assert |value| < |t|;
    } else if rule == ExactText {
      assert |Trim(text)| <= |text| < |t|;
    } else if rule == TextContains {
      assert |text| < |t|;
    } else {
      assert |value| < |t|;
    }
  }

  /** Options all shorter than the target get past the first four rules of
      the cascade. */
  lemma ShortOptionsRejected(t: string, options: seq<SelectOption>)
    requires forall j :: 0 <= j < |options| ==> |options[j].text| < |t| && |options[j].value| < |t|
    ensures forall a, j :: 0 <= a < 4 && 0 <= j < |options| ==> !Accepts(t, AllRules[a], options[j])
  {
    forall a, j | 0 <= a < 4 && 0 <= j < |options| ensures !Accepts(t, AllRules[a], options[j]) {
      ShortOptionRejected(t, AllRules[a], options[j]);
    }
  }

  /** "3 to 5 years" against the options "3-5 years" and "5-10 years": the
      first four rules find nothing, and the year rule normalises the target
      to "3-5" and picks the first option. */
  lemma YearRangeExample()
    ensures FindBestSelectOption([SelectOption("3-5", "3-5 years", false), SelectOption("5-10", "5-10 years", false)],
                                 "3 to 5 years")
            == Some(SelectOption("3-5", "3-5 years", false))
  {
    var t := "3 to 5 years";
    assert Lower(t) == t by {
      forall k | 0 <= k < |t| ensures LowerChar(t[k]) == t[k] { }
    }
    TrimNoSpace(t);
    YearCascadeExample();
  }

  /** When the first four rules reject every option, the first option the
      year rule accepts is the cascade's answer. */
  lemma YearRuleDecides(t: string, options: seq<SelectOption>, i: nat)
    requires i < |options| && Accepts(t, YearRange, options[i])
    requires forall a, j :: 0 <= a < 4 && 0 <= j < |options| ==> !Accepts(t, AllRules[a], options[j])
    requires forall j :: 0 <= j < i ==> !Accepts(t, YearRange, options[j])
    ensures Cascade(options, AllRules, (rule, o) => Accepts(t, rule, o)) == Some(options[i])
  {
    var accepts := (rule, o) => Accepts(t, rule, o);
    assert AllRules[4] == YearRange;
    assert accepts(AllRules[4], options[i]);
    CascadeReaches(options, AllRules, accepts, 4, i);
  }

  /** The cascade part of the example above, on the already normalised target. */
  lemma YearCascadeExample()
    ensures var t := "3 to 5 years";
            Cascade([SelectOption("3-5", "3-5 years", false), SelectOption("5-10", "5-10 years", false)],
                    AllRules, (rule, o) => Accepts(t, rule, o))
            == Some(SelectOption("3-5", "3-5 years", false))
  {
    var options := [SelectOption("3-5", "3-5 years", false), SelectOption("5-10", "5-10 years", false)];
    ShortOptionsRejected("3 to 5 years", options);
    YearRuleAcceptsExample();
    YearRuleDecides("3 to 5 years", options, 0);
  }

  /** The target "3 to 5 years" mentions years. */
  lemma YearWordExample()
    ensures Contains("3 to 5 years", "year")
  {
    var t := "3 to 5 years";
    assert t[7..11] == "year";
    ContainsAt(t, "year", 7);
  }

  /** The year rule is tried for the target "3 to 5 years". */
  lemma YearRuleAppliesExample()
    ensures Applies(YearRange, "3 to 5 years")
  {
    YearWordExample();
    YearMatchExample();
  }

  /** The option text "3-5 years" holds the token "3-5". */
  lemma YearTextExample()
    ensures Contains(Lower("3-5 years"), "3-5")
  {
    var text := Lower("3-5 years");
    assert text[0] == '3' && text[1] == '-' && text[2] == '5';
    assert text[0..3] == "3-5";
    ContainsAt(text, "3-5", 0);
  }

  /** The year rule accepts the option "3-5 years" for "3 to 5 years". */
  lemma YearRuleAcceptsExample()
    ensures Accepts("3 to 5 years", YearRange, SelectOption("3-5", "3-5 years", false))
  {
    YearMatchExample();
    YearTokenExample();
    YearRuleAppliesExample();
    YearTextExample();
  }
}
