/** ASCII models of the JavaScript string operations the application relies on:
    trim, toLowerCase, toUpperCase, startsWith, includes, split and join. */
module Text {

  /** Whitespace removed by String.prototype.trim, restricted to ASCII:
      space, tab, line feed, vertical tab, form feed, carriage return. */
  predicate IsSpace(c: char) {
    c == ' ' || '\t' <= c <= '\r'
  }

  predicate AllSpace(s: string) {
    forall i :: 0 <= i < |s| ==> IsSpace(s[i])
  }

  function LowerChar(c: char): (r: char)
    ensures 'A' <= c <= 'Z' ==> r as int == c as int + 32
    ensures !('A' <= c <= 'Z') ==> r == c
  {
    if 'A' <= c <= 'Z' then (c as int + 32) as char else c
  }

  function UpperChar(c: char): (r: char)
    ensures 'a' <= c <= 'z' ==> r as int == c as int - 32
    ensures !('a' <= c <= 'z') ==> r == c
  {
    if 'a' <= c <= 'z' then (c as int - 32) as char else c
  }

  /** String.prototype.toLowerCase over ASCII. */
  function Lower(s: string): (r: string)
    ensures |r| == |s|
    ensures forall i :: 0 <= i < |s| ==> r[i] == LowerChar(s[i])
  {
    if |s| == 0 then "" else [LowerChar(s[0])] + Lower(s[1..])
  }

  /** Leading whitespace removed. */
  function TrimStart(s: string): (r: string)
    ensures |r| <= |s|
  {
    if |s| > 0 && IsSpace(s[0]) then TrimStart(s[1..]) else s
  }

  /** Trailing whitespace removed. */
  function TrimEnd(s: string): (r: string)
    ensures |r| <= |s|
  {
    if |s| > 0 && IsSpace(s[|s| - 1]) then TrimEnd(s[..|s| - 1]) else s
  }

  /** String.prototype.trim. */
  function Trim(s: string): string {
    TrimEnd(TrimStart(s))
  }

  lemma {:induction false} TrimStartBlank(s: string)
    ensures TrimStart(s) == "" <==> AllSpace(s)
    ensures TrimStart(s) != "" ==> !IsSpace(TrimStart(s)[0])
    decreases |s|
  {
    if |s| > 0 && IsSpace(s[0]) {
      TrimStartBlank(s[1..]);
      assert AllSpace(s) <==> AllSpace(s[1..]) by {
        if AllSpace(s[1..]) {
          forall i | 0 < i < |s| ensures IsSpace(s[i]) {
            assert s[i] == s[1..][i - 1];
          }
        }
      }
    }
  }

  lemma {:induction false} TrimEndKeepsFirst(s: string)
    requires |s| > 0 && !IsSpace(s[0])
    ensures TrimEnd(s) != ""
    decreases |s|
  {
    if IsSpace(s[|s| - 1]) {
      TrimEndKeepsFirst(s[..|s| - 1]);
    }
  }

  /** A text trims to nothing exactly when it is all whitespace. */
  lemma TrimBlank(s: string)
    ensures Trim(s) == "" <==> AllSpace(s)
  {
    TrimStartBlank(s);
    if TrimStart(s) != "" {
      TrimEndKeepsFirst(TrimStart(s));
    }
  }

  /** String.prototype.startsWith. */
  predicate StartsWith(s: string, prefix: string) {
    |prefix| <= |s| && s[..|prefix|] == prefix
  }

  /** String.prototype.includes, computed by scanning every start position. */
  predicate Contains(s: string, t: string)
    decreases |s|
  {
    StartsWith(s, t) || (|s| > 0 && Contains(s[1..], t))
  }

  /** The declarative meaning of includes: some window of s equals t. */
  ghost predicate OccursAt(s: string, t: string, i: int) {
    0 <= i && i + |t| <= |s| && s[i..i + |t|] == t
  }

  lemma {:induction false} ContainsMeaning(s: string, t: string)
    ensures Contains(s, t) <==> exists i :: OccursAt(s, t, i)
    decreases |s|
  {
    if StartsWith(s, t) {
      assert OccursAt(s, t, 0);
    } else if |s| == 0 {
      forall i ensures !OccursAt(s, t, i) {
      }
    } else {
      ContainsMeaning(s[1..], t);
      if Contains(s[1..], t) {
        var i :| OccursAt(s[1..], t, i);
        assert s[1..][i..i + |t|] == s[i + 1..i + 1 + |t|];
        assert OccursAt(s, t, i + 1);
      } else {
        forall i ensures !OccursAt(s, t, i) {
          if 1 <= i && i + |t| <= |s| {
            assert s[1..][i - 1..i - 1 + |t|] == s[i..i + |t|];
            assert !OccursAt(s[1..], t, i - 1);
          }
        }
      }
    }
  }

  /** An occurrence at a known position witnesses includes. */
  lemma ContainsAt(s: string, t: string, i: int)
    requires OccursAt(s, t, i)
    ensures Contains(s, t)
  {
    ContainsMeaning(s, t);
  }

  /** If t occurs in s and u occurs in t, then u occurs in s. */
  lemma ContainsTransitive(s: string, t: string, u: string)
    requires Contains(s, t) && Contains(t, u)
    ensures Contains(s, u)
  {
    ContainsMeaning(s, t);
    ContainsMeaning(t, u);
    var i :| OccursAt(s, t, i);
    var j :| OccursAt(t, u, j);
    forall k | 0 <= k < |u| ensures s[i + j + k] == u[k] {
      assert t[j + k] == u[k];
      assert s[i + j + k] == t[j + k];
    }
    assert s[i + j..i + j + |u|] == u;
    ContainsAt(s, u, i + j);
  }

  /** A string occurs in any concatenation that has it as a part. */
  lemma ContainsPart(a: string, t: string, b: string)
    ensures Contains(a + t + b, t)
  {
    assert (a + t + b)[|a|..|a| + |t|] == t;
    ContainsAt(a + t + b, t, |a|);
  }

  lemma Assoc(a: string, b: string, c: string)
    ensures a + (b + c) == a + b + c
  {
  }

  /** Array.prototype.join: the parts with sep between neighbours. */
  function Join(parts: seq<string>, sep: string): string
    decreases |parts|
  {
    if |parts| == 0 then ""
    else if |parts| == 1 then parts[0]
    else parts[0] + sep + Join(parts[1..], sep)
  }

  /** Every part of a join occurs in it. */
  lemma {:induction false} JoinContainsPart(parts: seq<string>, sep: string, k: int)
    requires 0 <= k < |parts|
    ensures Contains(Join(parts, sep), parts[k])
    decreases |parts|
  {
    if |parts| == 1 {
      ContainsPart("", parts[0], "");
    } else if k == 0 {
      ContainsPart("", parts[0], sep + Join(parts[1..], sep));
      assert "" + parts[0] + (sep + Join(parts[1..], sep)) == Join(parts, sep);
    } else {
      JoinContainsPart(parts[1..], sep, k - 1);
      ContainsPart(parts[0] + sep, Join(parts[1..], sep), "");
      assert parts[0] + sep + Join(parts[1..], sep) + "" == Join(parts, sep);
      ContainsTransitive(Join(parts, sep), Join(parts[1..], sep), parts[k]);
    }
  }

  /** String.prototype.split with a one-character separator: the pieces
      between separators, always at least one. */
  function Split(s: string, sep: char): (r: seq<string>)
    ensures |r| >= 1
    decreases |s|
  {
    if |s| == 0 then [""]
    else if s[0] == sep then [""] + Split(s[1..], sep)
    else
      var rest := Split(s[1..], sep);
      [[s[0]] + rest[0]] + rest[1..]
  }

  /** Every occurrence of c in s replaced by d. */
  function ReplaceChar(s: string, c: char, d: char): (r: string)
    ensures |r| == |s|
    ensures forall i :: 0 <= i < |s| ==> r[i] == if s[i] == c then d else s[i]
  {
    if |s| == 0 then "" else [if s[0] == c then d else s[0]] + ReplaceChar(s[1..], c, d)
  }

  /** Splitting on c and joining with d replaces every c by d; with d == c
      this is the round trip join(split(s)) == s. */
  lemma {:induction false} JoinSplit(s: string, c: char, d: char)
    ensures Join(Split(s, c), [d]) == ReplaceChar(s, c, d)
    decreases |s|
  {
    if |s| > 0 {
      JoinSplit(s[1..], c, d);
      if s[0] == c {
        JoinSplitAtSeparator(s, c, d);
      } else {
        JoinSplitAtOther(s, c, d);
      }
    }
  }

  lemma JoinSplitAtSeparator(s: string, c: char, d: char)
    requires |s| > 0 && s[0] == c
    requires Join(Split(s[1..], c), [d]) == ReplaceChar(s[1..], c, d)
    ensures Join(Split(s, c), [d]) == ReplaceChar(s, c, d)
  {
    var rest := Split(s[1..], c);
    var parts := [""] + rest;
    assert Split(s, c) == parts;
    assert parts[1..] == rest;
    assert Join(parts, [d]) == "" + [d] + Join(rest, [d]);
    assert ReplaceChar(s, c, d) == [d] + ReplaceChar(s[1..], c, d);
  }

  lemma JoinSplitAtOther(s: string, c: char, d: char)
    requires |s| > 0 && s[0] != c
    requires Join(Split(s[1..], c), [d]) == ReplaceChar(s[1..], c, d)
    ensures Join(Split(s, c), [d]) == ReplaceChar(s, c, d)
  {
    var rest := Split(s[1..], c);
    var parts := [[s[0]] + rest[0]] + rest[1..];
    assert Split(s, c) == parts;
    assert ReplaceChar(s, c, d) == [s[0]] + ReplaceChar(s[1..], c, d);
    if |rest| == 1 {
      assert Join(parts, [d]) == [s[0]] + rest[0];
      assert Join(rest, [d]) == rest[0];
    } else {
      var more := Join(rest[1..], [d]);
      assert parts[1..] == rest[1..];
      assert Join(parts, [d]) == [s[0]] + rest[0] + [d] + more;
      assert Join(rest, [d]) == rest[0] + [d] + more;
      Assoc([s[0]], rest[0] + [d], more);
      Assoc([s[0]], rest[0], [d]);
    }
  }

  /** The decimal digits of n, as Number.prototype.toString writes them. */
  function NatToString(n: nat): (r: string)
    ensures |r| >= 1
    ensures forall i :: 0 <= i < |r| ==> '0' <= r[i] <= '9'
    decreases n
  {
    if n < 10 then [('0' as int + n) as char]
    else NatToString(n / 10) + [('0' as int + n % 10) as char]
  }

  /** Decimal digits read back as a number. */
  function DigitsValue(s: string): nat
    requires forall i :: 0 <= i < |s| ==> '0' <= s[i] <= '9'
    decreases |s|
  {
    if |s| == 0 then 0
    else DigitsValue(s[..|s| - 1]) * 10 + (s[|s| - 1] as int - '0' as int)
  }

  lemma {:induction false} NatToStringRoundTrip(n: nat)
    ensures DigitsValue(NatToString(n)) == n
    decreases n
  {
    if n >= 10 {
      NatToStringRoundTrip(n / 10);
      var r := NatToString(n);
      assert r[..|r| - 1] == NatToString(n / 10);
    }
  }
}
