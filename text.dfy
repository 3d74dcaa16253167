/** String operations of the .NET base library that the chunker, the prompt
    assembler and the streaming generator rely on, written out as functions
    over `string` (= `seq<char>`). */
module Text {

  /** Characters the sanitising regex (which deletes U+0000 to U+001F and
      U+007F and above) keeps: printable ASCII, 0x20 to 0x7E. */
  predicate IsPrintableAscii(c: char) {
    ' ' <= c <= '~'
  }

  /** Printable ASCII other than the space: the characters that carry text. */
  predicate IsVisible(c: char) {
    '!' <= c <= '~'
  }

  /** `char.IsWhiteSpace`: the Unicode space, line and paragraph separators,
      U+0009 to U+000D and U+0085. */
  predicate IsWhiteSpace(c: char) {
    || c == ' '
    || '\t' <= c <= '\r'
    || c == '\U{0085}'
    || c == '\U{00A0}'
    || c == '\U{1680}'
    || '\U{2000}' <= c <= '\U{200A}'
    || c == '\U{2028}'
    || c == '\U{2029}'
    || c == '\U{202F}'
    || c == '\U{205F}'
    || c == '\U{3000}'
  }

  /** `string.IsNullOrWhiteSpace` for a non-null string. */
  predicate IsBlank(s: string) {
    forall i :: 0 <= i < |s| ==> IsWhiteSpace(s[i])
  }

  /** `a` occurs in `b` in order, possibly with gaps. */
  predicate IsSubsequence(a: string, b: string)
    decreases |b|
  {
    if a == [] then true
    else if b == [] then false
    else (a[0] == b[0] && IsSubsequence(a[1..], b[1..])) || IsSubsequence(a, b[1..])
  }

  /** The sanitising regex replacement: the printable ASCII characters of `s`,
      in order. */
  function KeepPrintable(s: string): (r: string)
    ensures |r| <= |s|
    ensures forall i :: 0 <= i < |r| ==> IsPrintableAscii(r[i])
    ensures IsSubsequence(r, s)
    ensures (forall i :: 0 <= i < |s| ==> IsPrintableAscii(s[i])) ==> r == s
  {
    if s == [] then []
    else if IsPrintableAscii(s[0]) then [s[0]] + KeepPrintable(s[1..])
    else KeepPrintable(s[1..])
  }

  /** The replacement deletes non-printable characters only: every printable
      character of `s` survives as often as it occurs, and nothing else does. */
  lemma {:induction false} KeepPrintableCounts(s: string)
    ensures forall c :: IsPrintableAscii(c) ==> multiset(KeepPrintable(s))[c] == multiset(s)[c]
    ensures forall c :: !IsPrintableAscii(c) ==> multiset(KeepPrintable(s))[c] == 0
    decreases |s|
  {
    if s != [] {
      KeepPrintableCounts(s[1..]);
      assert s == [s[0]] + s[1..];
      assert multiset(s) == multiset{s[0]} + multiset(s[1..]);
    }
  }

  /** The visible (printable, non-space) characters of `s`, in order. */
  function VisibleChars(s: string): (r: string)
    ensures forall i :: 0 <= i < |r| ==> IsVisible(r[i])
  {
    if s == [] then []
    else if IsVisible(s[0]) then [s[0]] + VisibleChars(s[1..])
    else VisibleChars(s[1..])
  }

  lemma {:induction false} VisibleCharsAppend(a: string, b: string)
    ensures VisibleChars(a + b) == VisibleChars(a) + VisibleChars(b)
    decreases |a|
  {
    if a == [] {
      assert a + b == b;
    } else {
      assert (a + b)[0] == a[0] && (a + b)[1..] == a[1..] + b;
      VisibleCharsAppend(a[1..], b);
    }
  }

  /** Dropping non-printable characters loses no visible character. */
  lemma {:induction false} VisibleCharsOfKeepPrintable(s: string)
    ensures VisibleChars(KeepPrintable(s)) == VisibleChars(s)
    decreases |s|
  {
    if s != [] {
      VisibleCharsOfKeepPrintable(s[1..]);
      if IsPrintableAscii(s[0]) {
        assert ([s[0]] + KeepPrintable(s[1..]))[1..] == KeepPrintable(s[1..]);
      }
    }
  }

  /** A blank string has no visible character. */
  lemma {:induction false} VisibleCharsOfBlank(s: string)
    requires IsBlank(s)
    ensures VisibleChars(s) == []
    decreases |s|
  {
    if s != [] {
      assert IsWhiteSpace(s[0]);
      VisibleCharsOfBlank(s[1..]);
    }
  }

  /** `TrimStart()`: drops the leading white space. */
  function TrimStart(s: string): (r: string)
    ensures |r| <= |s|
  {
    if s != [] && IsWhiteSpace(s[0]) then TrimStart(s[1..]) else s
  }

  /** `TrimStart` keeps a suffix of `s`, drops only white space, and leaves
      none at the front. */
  lemma {:induction false} TrimStartDropsWhiteSpace(s: string)
    ensures var r := TrimStart(s);
      && r == s[|s| - |r|..]
      && (forall i :: 0 <= i < |s| - |r| ==> IsWhiteSpace(s[i]))
      && (r == [] || !IsWhiteSpace(r[0]))
    decreases |s|
  {
    if s != [] && IsWhiteSpace(s[0]) {
      TrimStartDropsWhiteSpace(s[1..]);
    }
  }

  /** `TrimEnd()`: drops the trailing white space. */
  function TrimEnd(s: string): (r: string)
    ensures |r| <= |s|
  {
    if s != [] && IsWhiteSpace(s[|s| - 1]) then TrimEnd(s[..|s| - 1]) else s
  }

  /** `TrimEnd` keeps a prefix of `s`, drops only white space, and leaves
      none at the back. */
  lemma {:induction false} TrimEndDropsWhiteSpace(s: string)
    ensures var r := TrimEnd(s);
      && r == s[..|r|]
      && (forall i :: |r| <= i < |s| ==> IsWhiteSpace(s[i]))
      && (r == [] || !IsWhiteSpace(r[|r| - 1]))
    decreases |s|
  {
    if s != [] && IsWhiteSpace(s[|s| - 1]) {
      TrimEndDropsWhiteSpace(s[..|s| - 1]);
    }
  }

  /** `Trim()`. */
  function Trim(s: string): (r: string)
    ensures |r| <= |s|
  {
    TrimEnd(TrimStart(s))
  }

  /** `Trim` keeps a slice of `s` that neither starts nor ends with white
      space, obtained by dropping only white space; it is empty exactly when
      `s` is blank. */
  lemma TrimProperties(s: string)
    ensures var r := Trim(s);
      && (r == [] || (!IsWhiteSpace(r[0]) && !IsWhiteSpace(r[|r| - 1])))
      && (r == [] <==> IsBlank(s))
      && exists i: nat :: i <= |s| - |r| && OccursAt(s, r, i)
           && IsBlank(s[..i]) && IsBlank(s[i + |r|..])
  {
    var front := TrimStart(s);
    var r := TrimEnd(front);
    var i := |s| - |front|;
    TrimStartDropsWhiteSpace(s);
    TrimEndDropsWhiteSpace(front);
    assert r == [] ==> front == [];
    assert OccursAt(s, r, i);
    assert s[i + |r|..] == front[|r|..];
    assert IsBlank(s[..i]) && IsBlank(s[i + |r|..]);
  }

  /** `s` has two periods in a row. */
  predicate HasDoublePeriod(s: string) {
    exists i, j :: 0 <= i && j == i + 1 < |s| && s[i] == '.' && s[j] == '.'
  }

  /** `Regex.Replace(s, @"(\.){2,}", ".")`: every run of two or more periods
      becomes a single period. */
  function CollapsePeriods(s: string): (r: string)
    ensures |r| <= |s|
  {
    if s == [] then []
    else if |s| >= 2 && s[0] == '.' && s[1] == '.' then CollapsePeriods(s[1..])
    else [s[0]] + CollapsePeriods(s[1..])
  }

  /** Collapsing leaves no two periods in a row, keeps the first and the
      last character, and empties only the empty string. */
  lemma {:induction false} CollapseProperties(s: string)
    ensures var r := CollapsePeriods(s);
      && (r == [] <==> s == [])
      && (s != [] ==> r[0] == s[0] && r[|r| - 1] == s[|s| - 1])
      && !HasDoublePeriod(r)
    decreases |s|
  {
    if s != [] {
      CollapseProperties(s[1..]);
      if !(|s| >= 2 && s[0] == '.' && s[1] == '.') {
        var rest := CollapsePeriods(s[1..]);
        var r := [s[0]] + rest;
        assert r[1..] == rest;
        forall i, j | 0 <= i && j == i + 1 < |r| ensures !(r[i] == '.' && r[j] == '.') {
          if i > 0 {
            assert r[i] == rest[i - 1] && r[j] == rest[j - 1];
          }
        }
      }
    }
  }

  /** Two periods in a row collapse exactly as one period would, wherever
      they stand: together with `CollapseIdentity` this pins the function
      down. */
  lemma {:induction false} CollapseMergesPair(a: string, b: string)
    ensures CollapsePeriods(a + ".." + b) == CollapsePeriods(a + "." + b)
    decreases |a|
  {
    var x := a + ".." + b;
    var y := a + "." + b;
    if a == [] {
      assert x[1..] == y;
    } else {
      CollapseMergesPair(a[1..], b);
      assert x[0] == y[0] == a[0];
      assert x[1] == y[1];
      assert x[1..] == a[1..] + ".." + b;
      assert y[1..] == a[1..] + "." + b;
    }
  }

  /** Collapsing introduces no character. */
  lemma {:induction false} CollapseKeepsChars(s: string)
    ensures forall c :: c in CollapsePeriods(s) ==> c in s
    decreases |s|
  {
    if s != [] {
      CollapseKeepsChars(s[1..]);
    }
  }

  /** The characters of `s` other than the period, in order. */
  function WithoutPeriods(s: string): string {
    if s == [] then []
    else if s[0] == '.' then WithoutPeriods(s[1..])
    else [s[0]] + WithoutPeriods(s[1..])
  }

  /** Collapsing runs of periods removes periods and nothing else. */
  lemma {:induction false} CollapseKeepsOtherChars(s: string)
    ensures WithoutPeriods(CollapsePeriods(s)) == WithoutPeriods(s)
    decreases |s|
  {
    if s != [] {
      CollapseKeepsOtherChars(s[1..]);
      if !(|s| >= 2 && s[0] == '.' && s[1] == '.') {
        assert ([s[0]] + CollapsePeriods(s[1..]))[1..] == CollapsePeriods(s[1..]);
      }
    }
  }

  /** Text without a double period is left as it is; so collapsing twice is
      collapsing once. */
  lemma {:induction false} CollapseIdentity(s: string)
    requires !HasDoublePeriod(s)
    ensures CollapsePeriods(s) == s
    decreases |s|
  {
    if s != [] {
      assert !HasDoublePeriod(s[1..]) by {
        forall i, j | 0 <= i && j == i + 1 < |s| - 1
          ensures !(s[1..][i] == '.' && s[1..][j] == '.')
        {
          assert s[1..][i] == s[i + 1] && s[1..][j] == s[j + 1];
        }
      }
      CollapseIdentity(s[1..]);
    }
  }

  lemma CollapseIdempotent(s: string)
    ensures CollapsePeriods(CollapsePeriods(s)) == CollapsePeriods(s)
  {
    CollapseProperties(s);
    CollapseIdentity(CollapsePeriods(s));
  }

  /** `s.LastIndexOf(c, start, count)`: the greatest position in the window
      `start - count + 1 .. start` holding `c`, or -1 when there is none. */
  function LastIndexOf(s: string, c: char, start: int, count: nat): (r: int)
    requires 0 <= start < |s| && count <= start + 1
    ensures r == -1 || start - count < r <= start
    decreases count
  {
    if count == 0 then -1
    else if s[start] == c then start
    else if count == 1 then -1
    else LastIndexOf(s, c, start - 1, count - 1)
  }

  /** What `LastIndexOf` finds holds `c`, and nothing after it in the window
      does; so it answers -1 exactly when the window holds no `c`. */
  lemma {:induction false} LastIndexOfFindsLast(s: string, c: char, start: int, count: nat)
    requires 0 <= start < |s| && count <= start + 1
    ensures var r := LastIndexOf(s, c, start, count);
      && (r != -1 ==> s[r] == c)
      && (forall k :: start - count < k <= start && r < k ==> s[k] != c)
    decreases count
  {
    if count > 1 && s[start] != c {
      LastIndexOfFindsLast(s, c, start - 1, count - 1);
    }
  }

  /** `sub` occurs in `s` at position `i`. */
  predicate OccursAt(s: string, sub: string, i: nat) {
    i + |sub| <= |s| && s[i..i + |sub|] == sub
  }

  predicate StartsWith(s: string, prefix: string) {
    |prefix| <= |s| && s[..|prefix|] == prefix
  }

  predicate EndsWith(s: string, suffix: string) {
    |suffix| <= |s| && s[|s| - |suffix|..] == suffix
  }

  /** `s.Contains(sub)` (ordinal comparison). */
  function Contains(s: string, sub: string): (r: bool)
    ensures r <==> exists i: nat :: i <= |s| - |sub| && OccursAt(s, sub, i)
    decreases |s|
  {
    if |s| < |sub| then false
    else if s[..|sub|] == sub then (assert OccursAt(s, sub, 0); true)
    else
      var r := Contains(s[1..], sub);
      assert r ==> exists i: nat :: i <= |s| - |sub| && OccursAt(s, sub, i) by {
        if r {
          var i: nat :| i <= |s[1..]| - |sub| && OccursAt(s[1..], sub, i);
          assert s[i + 1..i + 1 + |sub|] == s[1..][i..i + |sub|];
          assert OccursAt(s, sub, i + 1);
        }
      }
      assert (exists i: nat :: i <= |s| - |sub| && OccursAt(s, sub, i)) ==> r by {
        if exists i: nat :: i <= |s| - |sub| && OccursAt(s, sub, i) {
          var i: nat :| i <= |s| - |sub| && OccursAt(s, sub, i);
          assert i != 0;
          assert s[1..][i - 1..i - 1 + |sub|] == s[i..i + |sub|];
          assert OccursAt(s[1..], sub, i - 1);
        }
      }
      r
  }

  /** Concatenation of a list of strings (a `StringBuilder` fed in order). */
  function Concat(xs: seq<string>): string {
    if xs == [] then [] else xs[0] + Concat(xs[1..])
  }

  lemma {:induction false} ConcatAppend(xs: seq<string>, ys: seq<string>)
    ensures Concat(xs + ys) == Concat(xs) + Concat(ys)
    decreases |xs|
  {
    if xs == [] {
      assert xs + ys == ys;
    } else {
      assert (xs + ys)[0] == xs[0] && (xs + ys)[1..] == xs[1..] + ys;
      ConcatAppend(xs[1..], ys);
    }
  }

  /** `string.Join(sep, xs)`. */
  function Join(sep: string, xs: seq<string>): string {
    if xs == [] then [] else if |xs| == 1 then xs[0] else xs[0] + sep + Join(sep, xs[1..])
  }

  /** Where `xs[i]` starts in `Join(sep, xs)`: after every earlier element
      and its separator. */
  function JoinOffset(sep: string, xs: seq<string>, i: nat): nat
    requires i <= |xs|
  {
    if i == 0 then 0 else JoinOffset(sep, xs, i - 1) + |xs[i - 1]| + |sep|
  }

  lemma OccursAtShift(a: string, b: string, sub: string, i: nat)
    requires OccursAt(b, sub, i)
    ensures OccursAt(a + b, sub, |a| + i)
  {
    assert (a + b)[|a| + i..|a| + i + |sub|] == b[i..i + |sub|];
  }

  /** Every element of the list appears whole in the joined string, at its
      offset, so in list order. */
  lemma {:induction false} JoinElementAt(sep: string, xs: seq<string>, i: nat)
    requires i < |xs|
    ensures OccursAt(Join(sep, xs), xs[i], JoinOffset(sep, xs, i))
    decreases |xs|
  {
    if i == 0 {
      if |xs| > 1 {
        assert Join(sep, xs)[..|xs[0]|] == xs[0];
      }
    } else {
      JoinElementAt(sep, xs[1..], i - 1);
      JoinOffsetOfTail(sep, xs, i);
      OccursAtShift(xs[0] + sep, Join(sep, xs[1..]), xs[i], JoinOffset(sep, xs[1..], i - 1));
    }
  }

  /** The separator sits between consecutive elements: right before each
      element but the first. */
  lemma {:induction false} JoinSeparatorAt(sep: string, xs: seq<string>, i: nat)
    requires 0 < i < |xs|
    ensures JoinOffset(sep, xs, i) >= |sep|
    ensures OccursAt(Join(sep, xs), sep, JoinOffset(sep, xs, i) - |sep|)
    decreases |xs|
  {
    if i == 1 {
      var j := Join(sep, xs);
      assert j == xs[0] + sep + Join(sep, xs[1..]);
      assert j[|xs[0]|..|xs[0]| + |sep|] == sep;
    } else {
      JoinSeparatorAt(sep, xs[1..], i - 1);
      JoinOffsetOfTail(sep, xs, i);
      OccursAtShift(xs[0] + sep, Join(sep, xs[1..]), sep, JoinOffset(sep, xs[1..], i - 1) - |sep|);
    }
  }

  /** The joined string ends with the last element: nothing follows it. */
  lemma {:induction false} JoinLength(sep: string, xs: seq<string>)
    requires xs != []
    ensures |Join(sep, xs)| == JoinOffset(sep, xs, |xs| - 1) + |xs[|xs| - 1]|
    decreases |xs|
  {
    if |xs| > 1 {
      JoinLength(sep, xs[1..]);
      JoinOffsetOfTail(sep, xs, |xs| - 1);
      assert xs[1..][|xs[1..]| - 1] == xs[|xs| - 1];
    }
  }

  lemma {:induction false} JoinOffsetOfTail(sep: string, xs: seq<string>, i: nat)
    requires 0 < i <= |xs|
    ensures JoinOffset(sep, xs, i) == |xs[0]| + |sep| + JoinOffset(sep, xs[1..], i - 1)
    decreases i
  {
    if i > 1 {
      JoinOffsetOfTail(sep, xs, i - 1);
    }
  }

  /** Decimal digits of a natural number, most significant first, no leading zero. */
  function NatToString(n: nat): (r: string)
    ensures |r| >= 1
    ensures forall i :: 0 <= i < |r| ==> '0' <= r[i] <= '9'
    ensures |r| > 1 ==> r[0] != '0'
  {
    var d := ['0' + (n % 10) as char];
    if n < 10 then d else NatToString(n / 10) + d
  }

  /** Value of a string of decimal digits. */
  function DigitsValue(s: string): nat
    requires forall i :: 0 <= i < |s| ==> '0' <= s[i] <= '9'
  {
    if s == [] then 0
    else DigitsValue(s[..|s| - 1]) * 10 + (s[|s| - 1] - '0') as nat
  }

  /** Reading the digits back gives the number: the rendering loses nothing. */
  lemma {:induction false} NatToStringRoundTrip(n: nat)
    ensures DigitsValue(NatToString(n)) == n
    decreases n
  {
    if n >= 10 {
      NatToStringRoundTrip(n / 10);
      var s := NatToString(n);
      assert s[..|s| - 1] == NatToString(n / 10);
    }
  }

  /** `int.ToString()`: an optional minus sign and the digits of the
      magnitude. The program formats with the current culture; the model
      fixes the negative sign to '-', which a culture may replace. */
  function IntToString(n: int): string {
    if n < 0 then "-" + NatToString(-n) else NatToString(n)
  }
}
