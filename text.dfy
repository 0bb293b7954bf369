/** String helpers shared by the model: the parts of JavaScript's
    `String.prototype` that the extension relies on, written over `seq<char>`. */
module Text {
  import opened Wrappers

  /** `c` is white space or a line terminator in the sense of ECMAScript's
      `String.prototype.trim` and the regular-expression class `\s`. */
  predicate IsSpace(c: char)
  {
    c == ' ' || c == '\t' || c == '\n' || c == '\r' || c == '\U{B}' || c == '\U{C}'
    || c == '\U{A0}' || c == '\U{1680}' || ('\U{2000}' <= c <= '\U{200A}')
    || c == '\U{2028}' || c == '\U{2029}' || c == '\U{202F}' || c == '\U{205F}'
    || c == '\U{3000}' || c == '\U{FEFF}'
  }

  /** The regular-expression class `\d`: ASCII digits only. */
  predicate IsDigit(c: char)
  {
    '0' <= c <= '9'
  }

  /** `toLowerCase` on one character, restricted to ASCII letters. */
  function LowerChar(c: char): (r: char)
    ensures 'A' <= c <= 'Z' ==> r as int == c as int + 32
    ensures !('A' <= c <= 'Z') ==> r == c
  {
    if 'A' <= c <= 'Z' then (c as int + 32) as char else c
  }

  /** `s.toLowerCase()`, restricted to ASCII letters. */
  function Lower(s: string): (r: string)
    ensures |r| == |s|
    ensures forall i :: 0 <= i < |s| ==> r[i] == LowerChar(s[i])
  {
    seq(|s|, i requires 0 <= i < |s| => LowerChar(s[i]))
  }

  /** Lower-casing twice is lower-casing once. */
  lemma LowerIdempotent(s: string)
    ensures Lower(Lower(s)) == Lower(s)
  {
  }

  /** `t` occurs in `s` starting at position `i`. */
  predicate OccursAt(s: string, t: string, i: nat)
  {
    i + |t| <= |s| && s[i..i + |t|] == t
  }

  /** `s.includes(t)`: `t` occurs in `s` at some position. */
  predicate Contains(s: string, t: string)
  {
    exists i: nat | i <= |s| :: OccursAt(s, t, i)
  }

  /** `s.startsWith(p)`. */
  predicate StartsWith(s: string, p: string)
  {
    |p| <= |s| && s[..|p|] == p
  }

  /** A witness position makes `Contains` true. */
  lemma ContainsAt(s: string, t: string, i: nat)
    requires i + |t| <= |s| && s[i..i + |t|] == t
    ensures Contains(s, t)
  {
    assert OccursAt(s, t, i);
  }

  /** Appending text on either side keeps an occurrence. */
  lemma ContainsExtend(a: string, s: string, b: string, t: string)
    requires Contains(s, t)
    ensures Contains(a + s + b, t)
  {
    var i: nat :| i <= |s| && OccursAt(s, t, i);
    assert i + |t| <= |s| && s[i..i + |t|] == t;
    assert (a + s + b)[|a| + i..|a| + i + |t|] == s[i..i + |t|];
    ContainsAt(a + s + b, t, |a| + i);
  }

  /** An occurrence in the tail of `s` is an occurrence in `s`. */
  lemma ContainsTail(s: string, t: string)
    requires |s| > 0
    ensures Contains(s[1..], t) ==> Contains(s, t)
  {
    if Contains(s[1..], t) {
      var i: nat :| i <= |s[1..]| && OccursAt(s[1..], t, i);
      assert s[i + 1..i + 1 + |t|] == s[1..][i..i + |t|];
      assert OccursAt(s, t, i + 1);
    }
  }

  /** A string contains itself. */
  lemma ContainsSelf(t: string)
    ensures Contains(t, t)
  {
    assert t[0..|t|] == t;
    ContainsAt(t, t, 0);
  }

  /** Appending text keeps an occurrence. */
  lemma ContainsBefore(s: string, b: string, t: string)
    requires Contains(s, t)
    ensures Contains(s + b, t)
  {
    var i: nat :| i <= |s| && OccursAt(s, t, i);
    assert (s + b)[i..i + |t|] == s[i..i + |t|];
    ContainsAt(s + b, t, i);
  }

  /** A string contains what it ends with. */
  lemma ContainsSuffix(a: string, t: string)
    ensures Contains(a + t, t)
  {
    assert (a + t)[|a|..|a| + |t|] == t;
    ContainsAt(a + t, t, |a|);
  }

  /** A sequence is its part before `m` followed by the rest. */
  lemma SplitAt<T>(s: seq<T>, m: nat)
    requires m <= |s|
    ensures s == s[..m] + s[m..]
  {
  }

  /** Concatenation of four sequences regrouped to the right. */
  lemma Regroup<T>(a: seq<T>, b: seq<T>, c: seq<T>, d: seq<T>)
    ensures a + b + c + d == a + (b + c + d)
  {
  }

  /** `s.trimStart()`. */
  function TrimStart(s: string): (r: string)
    ensures |r| <= |s| && r == s[|s| - |r|..]
    ensures r == [] || !IsSpace(r[0])
    ensures forall i :: 0 <= i < |s| - |r| ==> IsSpace(s[i])
  {
    if |s| > 0 && IsSpace(s[0]) then TrimStart(s[1..]) else s
  }

  /** `s.trimEnd()`. */
  function TrimEnd(s: string): (r: string)
    ensures |r| <= |s| && r == s[..|r|]
    ensures r == [] || !IsSpace(r[|r| - 1])
    ensures forall i :: |r| <= i < |s| ==> IsSpace(s[i])
  {
    if |s| > 0 && IsSpace(s[|s| - 1]) then TrimEnd(s[..|s| - 1]) else s
  }

  /** `s.trim()`: the longest middle part of `s` that neither starts nor
      ends with white space. */
  function Trim(s: string): (r: string)
    ensures |r| <= |s|
    ensures r == [] || (!IsSpace(r[0]) && !IsSpace(r[|r| - 1]))
  {
    TrimEnd(TrimStart(s))
  }

  /** The trimmed string is a piece of the original, it has no white space at
      either end, and what was cut off was white space. */
  lemma TrimSpec(s: string)
    ensures exists i, j :: 0 <= i <= j <= |s| && Trim(s) == s[i..j]
                           && (forall k :: 0 <= k < i ==> IsSpace(s[k]))
                           && (forall k :: j <= k < |s| ==> IsSpace(s[k]))
    ensures Trim(s) == [] || (!IsSpace(Trim(s)[0]) && !IsSpace(Trim(s)[|Trim(s)| - 1]))
  {
    var i, j := TrimBounds(s);
  }

  /** The positions where the trimmed part of `s` starts and ends. */
  lemma TrimBounds(s: string) returns (i: nat, j: nat)
    ensures i <= j <= |s| && Trim(s) == s[i..j]
    ensures forall k :: 0 <= k < i ==> IsSpace(s[k])
    ensures forall k :: j <= k < |s| ==> IsSpace(s[k])
  {
    var a := TrimStart(s);
    var b := TrimEnd(a);
    i := |s| - |a|;
    j := i + |b|;
    SliceOfSuffix(s, i, j);
    forall k | j <= k < |s| ensures IsSpace(s[k]) {
      assert s[k] == a[k - i];
    }
  }

  /** A prefix of a suffix is a slice. */
  lemma SliceOfSuffix<T>(s: seq<T>, i: nat, j: nat)
    requires i <= j <= |s|
    ensures s[i..][..j - i] == s[i..j]
  {
  }

  /** Trimming a string with no white space at either end leaves it alone. */
  lemma TrimNoSpace(s: string)
    requires s == [] || (!IsSpace(s[0]) && !IsSpace(s[|s| - 1]))
    ensures Trim(s) == s
  {
  }

  /** `s.replace(/\s+/g, '')`: every white-space character removed. */
  function RemoveSpaces(s: string): (r: string)
    ensures |r| <= |s|
    ensures forall i :: 0 <= i < |r| ==> !IsSpace(r[i])
  {
    if s == [] then []
    else if IsSpace(s[|s| - 1]) then RemoveSpaces(s[..|s| - 1])
    else RemoveSpaces(s[..|s| - 1]) + [s[|s| - 1]]
  }

  /** One character is dropped when it is white space and kept otherwise. */
  lemma RemoveSpacesChar(c: char)
    ensures RemoveSpaces([c]) == if IsSpace(c) then [] else [c]
  {
    assert [c][..0] == [];
  }

  /** Removing white space from two strings one after the other is removing
      it from each: together with the one-character case, the non-space
      characters are kept, in order. */
  lemma {:induction false} RemoveSpacesAppend(a: string, b: string)
    ensures RemoveSpaces(a + b) == RemoveSpaces(a) + RemoveSpaces(b)
    decreases |b|
  {
    if b == [] {
      assert a + b == a;
    } else {
      var init := b[..|b| - 1];
      assert (a + b)[..|a + b| - 1] == a + init;
      assert (a + b)[|a + b| - 1] == b[|b| - 1];
      RemoveSpacesAppend(a, init);
    }
  }

  /** `s.replace(p, q)` with a string pattern: only the first occurrence of a
      non-empty `p` is replaced. */
  function ReplaceFirst(s: string, p: string, q: string): (r: string)
    requires p != []
    ensures |r| == |s| || |r| == |s| - |p| + |q|
    ensures forall i :: 0 <= i < |r| ==> r[i] in s || r[i] in q
    decreases |s|
  {
    if |s| < |p| then s
    else if s[..|p|] == p then q + s[|p|..]
    else [s[0]] + ReplaceFirst(s[1..], p, q)
  }

  /** When `p` does not occur, `replace` returns its input unchanged. */
  lemma {:induction false} ReplaceFirstAbsent(s: string, p: string, q: string)
    requires p != [] && !Contains(s, p)
    ensures ReplaceFirst(s, p, q) == s
    decreases |s|
  {
    if |s| >= |p| {
      if s[..|p|] == p {
        assert OccursAt(s, p, 0);
      }
      ContainsTail(s, p);
      ReplaceFirstAbsent(s[1..], p, q);
    }
  }

  /** When the first occurrence of `p` is at `i`, `replace` puts `q` in its
      place and keeps everything else. */
  lemma {:induction false} ReplaceFirstAt(s: string, p: string, q: string, i: nat)
    requires p != [] && OccursAt(s, p, i)
    requires forall j: nat :: j < i ==> !OccursAt(s, p, j)
    ensures ReplaceFirst(s, p, q) == s[..i] + q + s[i + |p|..]
    decreases i
  {
    if i == 0 {
      assert s[..0] == [];
    } else {
      assert !OccursAt(s, p, 0);
      var t := s[1..];
      assert OccursAt(t, p, i - 1) by { assert t[i - 1..i - 1 + |p|] == s[i..i + |p|]; }
      forall j: nat | j < i - 1 ensures !OccursAt(t, p, j) {
        assert !OccursAt(s, p, j + 1);
        if j + |p| <= |t| {
          assert t[j..j + |p|] == s[j + 1..j + 1 + |p|];
        }
      }
      ReplaceFirstAt(t, p, q, i - 1);
      assert [s[0]] + t[..i - 1] == s[..i];
      assert t[i - 1 + |p|..] == s[i + |p|..];
    }
  }

  /** `replace` with a string pattern, for every input: unchanged when the
      pattern does not occur, and the first occurrence replaced otherwise. */
  lemma ReplaceFirstSpec(s: string, p: string, q: string)
    requires p != []
    ensures !Contains(s, p) ==> ReplaceFirst(s, p, q) == s
    ensures forall i: nat :: OccursAt(s, p, i) && (forall j: nat :: j < i ==> !OccursAt(s, p, j))
                             ==> ReplaceFirst(s, p, q) == s[..i] + q + s[i + |p|..]
  {
    if !Contains(s, p) {
      ReplaceFirstAbsent(s, p, q);
    }
    forall i: nat | OccursAt(s, p, i) && (forall j: nat :: j < i ==> !OccursAt(s, p, j))
      ensures ReplaceFirst(s, p, q) == s[..i] + q + s[i + |p|..]
    {
      ReplaceFirstAt(s, p, q, i);
    }
  }

  /** The decimal digit for `d`. */
  function DigitChar(d: nat): (c: char)
    requires d < 10
    ensures IsDigit(c)
  {
    ('0' as int + d) as char
  }

  /** `String(n)` for a non-negative integer: its decimal digits. */
  function NatToString(n: nat): (s: string)
    ensures |s| > 0
    ensures forall i :: 0 <= i < |s| ==> IsDigit(s[i])
    ensures n == 0 <==> s == "0"
    ensures |s| == 1 || s[0] != '0'
  {
    if n < 10 then [DigitChar(n)] else NatToString(n / 10) + [DigitChar(n % 10)]
  }

  /** Reads a string of decimal digits back as a number. */
  function ParseDecimal(s: string): int
    requires forall i :: 0 <= i < |s| ==> IsDigit(s[i])
  {
    if s == [] then 0
    else ParseDecimal(s[..|s| - 1]) * 10 + (s[|s| - 1] as int - '0' as int)
  }

  /** Printing a number and reading it back gives the number. */
  lemma {:induction false} DecimalRoundTrip(n: nat)
    ensures ParseDecimal(NatToString(n)) == n
  {
    if n >= 10 {
      DecimalRoundTrip(n / 10);
      var s := NatToString(n);
      assert s[..|s| - 1] == NatToString(n / 10);
    }
  }

  /** Distinct numbers print differently. */
  lemma NatToStringInjective(m: nat, n: nat)
    requires m != n
    ensures NatToString(m) != NatToString(n)
  {
    DecimalRoundTrip(m);
    DecimalRoundTrip(n);
  }

  /** `parts.join(sep)`. */
  function Join(parts: seq<string>, sep: string): (r: string)
    ensures parts == [] ==> r == []
    ensures parts != [] ==> StartsWith(r, parts[0])
    ensures parts != [] ==> |parts[|parts| - 1]| <= |r| && r[|r| - |parts[|parts| - 1]|..] == parts[|parts| - 1]
  {
    if parts == [] then []
    else if |parts| == 1 then parts[0]
    else Join(parts[..|parts| - 1], sep) + sep + parts[|parts| - 1]
  }

  /** Every part occurs in the joined string, and two neighbouring parts
      appear with the separator between them. */
  lemma {:induction false} JoinContainsParts(parts: seq<string>, sep: string, k: nat)
    requires k < |parts|
    ensures Contains(Join(parts, sep), parts[k])
    ensures k + 1 < |parts| ==> Contains(Join(parts, sep), parts[k] + sep + parts[k + 1])
    decreases |parts|
  {
    var n := |parts|;
    if n == 1 {
      ContainsSelf(parts[0]);
    } else {
      var pre, last := parts[..n - 1], parts[n - 1];
      var j := Join(pre, sep);
      assert Join(parts, sep) == j + sep + last;
      if k == n - 1 {
        ContainsSuffix(j + sep, last);
      } else {
        assert pre[k] == parts[k];
        JoinContainsParts(pre, sep, k);
        ContainsBefore(j, sep, parts[k]);
        ContainsBefore(j + sep, last, parts[k]);
        var pair := parts[k] + sep + parts[k + 1];
        if k + 1 < n - 1 {
          assert pre[k + 1] == parts[k + 1];
          ContainsBefore(j, sep, pair);
          ContainsBefore(j + sep, last, pair);
        } else {
          JoinEndsWith(pre, sep);
          var m := |j| - |parts[k]|;
          SplitAt(j, m);
          Regroup(j[..m], parts[k], sep, last);
          ContainsSuffix(j[..m], pair);
        }
      }
    }
  }

  /** A joined non-empty list ends with its last part. */
  lemma {:induction false} JoinEndsWith(parts: seq<string>, sep: string)
    requires |parts| > 0
    ensures |parts[|parts| - 1]| <= |Join(parts, sep)|
    ensures Join(parts, sep)[|Join(parts, sep)| - |parts[|parts| - 1]|..] == parts[|parts| - 1]
  {
  }

  /** The character `c` does not occur in `s`. */
  predicate Avoids(s: string, c: char)
  {
    forall k :: 0 <= k < |s| ==> s[k] != c
  }

  /** Two strings that avoid `c` make a string that avoids `c`. */
  lemma AvoidsConcat(a: string, b: string, c: char)
    requires Avoids(a, c) && Avoids(b, c)
    ensures Avoids(a + b, c)
  {
    assert forall k :: 0 <= k < |b| ==> (a + b)[|a| + k] == b[k];
  }

  /** A string that avoids the first character of `t` does not contain `t`. */
  lemma AvoidsNotContains(s: string, t: string)
    requires |t| > 0 && Avoids(s, t[0])
    ensures !Contains(s, t)
  {
    forall i: nat | i <= |s| ensures !OccursAt(s, t, i) {
      if i + |t| <= |s| {
        assert s[i..i + |t|][0] == s[i];
      }
    }
  }

  /** `s.indexOf(c)`, with no occurrence as `None`. */
  function IndexOf(s: string, c: char): (r: Option<nat>)
    ensures r.Some? ==> r.value < |s| && s[r.value] == c && forall k :: 0 <= k < r.value ==> s[k] != c
    ensures r.None? ==> Avoids(s, c)
  {
    if s == [] then None
    else if s[0] == c then Some(0)
    else match IndexOf(s[1..], c)
      case None => None
      case Some(j) =>
        Some(j + 1)
  }

  /** `s.lastIndexOf(c)`, with no occurrence as `None`. */
  function LastIndexOf(s: string, c: char): (r: Option<nat>)
    ensures r.Some? ==> r.value < |s| && s[r.value] == c && forall k :: r.value < k < |s| ==> s[k] != c
    ensures r.None? ==> Avoids(s, c)
  {
    if s == [] then None
    else if s[|s| - 1] == c then Some(|s| - 1)
    else match LastIndexOf(s[..|s| - 1], c)
      case None => None
      case Some(j) =>
        Some(j)
  }

  /** Whatever occurs in the joined list occurs in the join of any longer
      list that starts with it. */
  lemma {:induction false} JoinAppendContains(parts: seq<string>, more: seq<string>, sep: string, t: string)
    requires Contains(Join(parts, sep), t)
    ensures Contains(Join(parts + more, sep), t)
    decreases |more|
  {
    if more == [] {
      assert parts + more == parts;
    } else if t == [] {
      ContainsAt(Join(parts + more, sep), t, 0);
    } else if parts == [] {
      assert false;
    } else {
      var all := parts + more;
      var n := |all|;
      assert all[..n - 1] == parts + more[..|more| - 1];
      JoinAppendContains(parts, more[..|more| - 1], sep, t);
      var j := Join(all[..n - 1], sep);
      assert Join(all, sep) == j + sep + all[n - 1];
      ContainsBefore(j, sep, t);
      ContainsBefore(j + sep, all[n - 1], t);
    }
  }
}
